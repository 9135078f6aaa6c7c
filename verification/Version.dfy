/** Comparing release versions (internal/cliproxy/version.go), against the
    precedence of Semantic Versioning 2.0.0, items 9 to 11. */
module Version {
  import opened Text
  import opened Decimal
  import opened State

  // ---------- parsing ----------

  /** strconv.ParseUint(s, 10, 64) */
  function ParseUint(s: string): Option<nat> {
    if Numeric(s) && Value(s) < WORD then Some(Value(s)) else None
  }

  datatype SemanticVersion = SemanticVersion(core: seq<nat>, prerelease: string)

  function CorePart(part: string): Option<nat> {
    if part == "" || !Plain(part) then None else ParseUint(part)
  }

  function ParseCore(parts: seq<string>): Option<seq<nat>> {
    if parts == [] then Some([])
    else
      var front, last := ParseCore(parts[..|parts| - 1]), CorePart(parts[|parts| - 1]);
      if front.None? || last.None? then None else Some(front.value + [last.value])
  }

  function WithoutV(value: string): string {
    if value != "" && (value[0] == 'v' || value[0] == 'V') then value[1..] else value
  }

  /** The part before c. */
  function Before(value: string, c: char): string { value[..IndexOf(value, c)] }

  /** The part after c, empty when there is no c. */
  function Past(value: string, c: char): string {
    if IndexOf(value, c) == |value| then "" else value[IndexOf(value, c) + 1..]
  }

  function Parse(value: string): Option<SemanticVersion> {
    var plain := Before(WithoutV(TrimSpace(value)), '+');
    var parts := Split(Before(plain, '-'), '.');
    if '-' in plain && Past(plain, '-') == "" then None
    else if |parts| != 3 || ParseCore(parts).None? then None
    else Some(SemanticVersion(ParseCore(parts).value, Past(plain, '-')))
  }

  method ParseSemanticVersion(text: string) returns (result: Option<SemanticVersion>)
    ensures result == Parse(text)
  {
    var value := CutVersion(text);
    var prerelease := "";
    var dash := IndexOf(value, '-');
    if dash < |value| {
      assert '-' in value;
      prerelease := value[dash + 1..];
      if prerelease == "" { return None; }
    } else {
      assert value[..dash] == value;
    }
    var parts := Split(value[..dash], '.');
    if |parts| != 3 { return None; }
    var core := ParseParts(parts);
    if core.None? { return None; }
    return Some(SemanticVersion(core.value, prerelease));
  }

  /** Drops white space around, one v or V, and the build metadata. */
  method CutVersion(text: string) returns (value: string)
    ensures value == Before(WithoutV(TrimSpace(text)), '+')
  {
    value := TrimSpace(text);
    if |value| > 0 && (value[0] == 'v' || value[0] == 'V') { value := value[1..]; }
    var plus := IndexOf(value, '+');
    if plus < |value| { value := value[..plus]; }
  }

  method ParseParts(parts: seq<string>) returns (result: Option<seq<nat>>)
    ensures result == ParseCore(parts)
  {
    var core: seq<nat> := [];
    for i := 0 to |parts|
      invariant ParseCore(parts[..i]) == Some(core)
    {
      assert parts[..i + 1][..i] == parts[..i];
      var part := parts[i];
      var number := ParseUint(part);
      if part == "" || (|part| > 1 && part[0] == '0') || number.None? {
        BadCore(parts, i + 1);
        return None;
      }
      core := core + [number.value];
    }
    assert parts[..|parts|] == parts;
    return Some(core);
  }

  lemma {:induction false} BadCore(parts: seq<string>, n: nat)
    requires n <= |parts| && ParseCore(parts[..n]).None?
    ensures ParseCore(parts).None?
  {
    if n == |parts| {
      assert parts[..n] == parts;
    } else {
      var front := parts[..|parts| - 1];
      assert front[..n] == parts[..n];
      BadCore(front, n);
    }
  }

  // ---------- comparing ----------

  function CompareCore(l: seq<nat>, r: seq<nat>): int {
    if l == [] || r == [] then 0
    else if l[0] < r[0] then -1
    else if l[0] > r[0] then 1
    else CompareCore(l[1..], r[1..])
  }

  /** Two different pre-release identifiers. */
  function ComparePart(l: string, r: string): int {
    var left, right := ParseUint(l), ParseUint(r);
    if left.Some? && right.Some? then (if left.value < right.value then -1 else 1)
    else if left.Some? then -1
    else if right.Some? then 1
    else if Less(l, r) then -1
    else 1
  }

  function CompareParts(l: seq<string>, r: seq<string>): int {
    if l == [] || r == [] then (if |l| < |r| then -1 else if |l| > |r| then 1 else 0)
    else if l[0] == r[0] then CompareParts(l[1..], r[1..])
    else ComparePart(l[0], r[0])
  }

  /** strings.EqualFold, for a folding of characters. */
  predicate EqualFold(a: string, b: string, fold: char -> char) {
    |a| == |b| && forall i :: 0 <= i < |a| ==> fold(a[i]) == fold(b[i])
  }

  function TrimPrefixV(s: string): string { if s != "" && s[0] == 'v' then s[1..] else s }

  /** None when the versions cannot be compared, else -1, 0 or 1. */
  function Compare(current: string, latest: string, fold: char -> char): Option<int> {
    var left, right := Parse(TrimSpace(current)), Parse(TrimSpace(latest));
    if EqualFold(TrimPrefixV(TrimSpace(current)), TrimPrefixV(TrimSpace(latest)), fold) then Some(0)
    else if left.None? || right.None? then None
    else Some(CompareParsed(left.value, right.value))
  }

  function CompareParsed(l: SemanticVersion, r: SemanticVersion): int {
    if CompareCore(l.core, r.core) != 0 then CompareCore(l.core, r.core)
    else if l.prerelease == r.prerelease then 0
    else if l.prerelease == "" then 1
    else if r.prerelease == "" then -1
    else CompareParts(Split(l.prerelease, '.'), Split(r.prerelease, '.'))
  }

  method ComparePrerelease(left: string, right: string) returns (order: int)
    ensures order == CompareParts(Split(left, '.'), Split(right, '.'))
  {
    var l, r := Split(left, '.'), Split(right, '.');
    var i := 0;
    while i < |l| && i < |r|
      invariant 0 <= i <= |l| && i <= |r|
      invariant CompareParts(l, r) == CompareParts(l[i..], r[i..])
    {
      assert l[i..][0] == l[i] && r[i..][0] == r[i];
      assert l[i..][1..] == l[i + 1..] && r[i..][1..] == r[i + 1..];
      if l[i] == r[i] { i := i + 1; continue; }
      var leftNumber, rightNumber := ParseUint(l[i]), ParseUint(r[i]);
      if leftNumber.Some? && rightNumber.Some? {
        return if leftNumber.value < rightNumber.value then -1 else 1;
      } else if leftNumber.Some? {
        return -1;
      } else if rightNumber.Some? {
        return 1;
      } else if Less(l[i], r[i]) {
        return -1;
      } else {
        return 1;
      }
    }
    if |l| < |r| { return -1; }
    if |l| > |r| { return 1; }
    return 0;
  }

  method CompareReleaseVersions(current: string, latest: string, fold: char -> char) returns (result: Option<int>)
    ensures result == Compare(current, latest, fold)
  {
    var c, l := TrimSpace(current), TrimSpace(latest);
    if EqualFold(TrimPrefixV(c), TrimPrefixV(l), fold) { return Some(0); }
    var left := ParseSemanticVersion(c);
    var right := ParseSemanticVersion(l);
    if left.None? || right.None? { return None; }
    ParsedCore(c);
    ParsedCore(l);
    var order := CompareCores(left.value.core, right.value.core);
    if order != 0 { return Some(order); }
    if left.value.prerelease == right.value.prerelease { return Some(0); }
    if left.value.prerelease == "" { return Some(1); }
    if right.value.prerelease == "" { return Some(-1); }
    order := ComparePrerelease(left.value.prerelease, right.value.prerelease);
    return Some(order);
  }

  method CompareCores(l: seq<nat>, r: seq<nat>) returns (order: int)
    requires |l| == |r|
    ensures order == CompareCore(l, r)
  {
    for i := 0 to |l|
      invariant CompareCore(l, r) == CompareCore(l[i..], r[i..])
    {
      assert l[i..][0] == l[i] && r[i..][0] == r[i];
      assert l[i..][1..] == l[i + 1..] && r[i..][1..] == r[i + 1..];
      if l[i] < r[i] { return -1; }
      if l[i] > r[i] { return 1; }
    }
    return 0;
  }

  lemma {:induction false} CoreLength(parts: seq<string>)
    requires ParseCore(parts).Some?
    ensures |ParseCore(parts).value| == |parts|
  {
    if parts != [] { CoreLength(parts[..|parts| - 1]); }
  }

  lemma ParsedCore(value: string)
    requires Parse(value).Some?
    ensures |Parse(value).value.core| == 3
  {
    CoreLength(Split(Before(Before(WithoutV(TrimSpace(value)), '+'), '-'), '.'));
  }
}
