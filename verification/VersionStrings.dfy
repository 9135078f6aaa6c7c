/** Version strings as the program receives them: what is accepted, how it is
    ordered, and where the order departs from the standard. */
module VersionStrings {
  import opened Text
  import opened Decimal
  import opened State
  import opened Version
  import opened VersionLaws
  import P = Precedence

  // ---------- what an accepted string stands for ----------

  function IdOf(part: string): P.Identifier { if Numeric(part) then P.Number(Value(part)) else P.Name(part) }

  function Ids(parts: seq<string>): seq<P.Identifier> {
    seq(|parts|, i requires 0 <= i < |parts| => IdOf(parts[i]))
  }

  function ReleaseOf(v: SemanticVersion): P.Release {
    P.Release(v.core, if v.prerelease == "" then [] else Ids(Split(v.prerelease, '.')))
  }

  /** No number among the pre-release identifiers has a leading zero. */
  predicate Regular(v: SemanticVersion) { forall part <- Split(v.prerelease, '.') :: Numeric(part) ==> Plain(part) }

  lemma {:induction false} CoreWritten(parts: seq<string>)
    requires ParseCore(parts).Some?
    ensures CoreTexts(ParseCore(parts).value) == parts && forall n <- ParseCore(parts).value :: n < WORD
  {
    if parts != [] {
      var front, last := parts[..|parts| - 1], parts[|parts| - 1];
      CoreWritten(front);
      ValueDigits(last);
      assert parts == front + [last];
      assert CoreTexts(ParseCore(parts).value) == CoreTexts(ParseCore(front).value) + [last];
    }
  }

  lemma PreWritten(prerelease: string)
    requires prerelease != "" && '+' !in prerelease
    requires forall part <- Split(prerelease, '.') :: Numeric(part) ==> Plain(part)
    ensures var pre := Ids(Split(prerelease, '.'));
      pre != [] && PreText(pre) == prerelease && forall id <- pre :: ValidId(id)
  {
    var parts := Split(prerelease, '.');
    var pre := Ids(parts);
    SplitPieces(prerelease, '.');
    JoinSplit(prerelease, '.');
    forall i | 0 <= i < |parts| ensures IdTexts(pre)[i] == parts[i] && ValidId(pre[i]) {
      assert parts[i] in parts;
      if Numeric(parts[i]) { ValueDigits(parts[i]); }
      PieceLacks(prerelease, '.', '+', parts[i]);
    }
    assert IdTexts(pre) == parts;
  }

  lemma {:induction false} PieceLacks(s: string, separator: char, c: char, piece: string)
    requires c !in s && piece in Split(s, separator)
    ensures c !in piece
  {
    var i := IndexOf(s, separator);
    if i < |s| && piece != s[..i] {
      assert piece in Split(s[i + 1..], separator);
      PieceLacks(s[i + 1..], separator, c, piece);
    }
  }

  lemma CutAt(s: string, c: char)
    ensures c !in Before(s, c)
    ensures s == Before(s, c) + if c in s then [c] + Past(s, c) else ""
    ensures c !in s ==> Past(s, c) == ""
  {
    var i := IndexOf(s, c);
    if i < |s| { CutInside(s, c); } else { WholeSlice(s); }
  }

  lemma CutInside(s: string, c: char)
    requires IndexOf(s, c) < |s|
    ensures c !in Before(s, c) && c in s && s == Before(s, c) + [c] + Past(s, c)
  {
    CutAgain(s, IndexOf(s, c));
  }

  /** The head of an accepted string is that of its release. */
  lemma HeadWritten(plain: string, v: SemanticVersion)
    requires '+' !in plain && ('-' in plain ==> Past(plain, '-') != "") && Regular(v)
    requires |v.core| == 3 && ParseCore(Split(Before(plain, '-'), '.')) == Some(v.core)
      && v.prerelease == Past(plain, '-')
    ensures ValidRelease(ReleaseOf(v)) && Head(ReleaseOf(v)) == plain
  {
    CutAt(plain, '-');
    CoreWritten(Split(Before(plain, '-'), '.'));
    JoinSplit(Before(plain, '-'), '.');
    if v.prerelease != "" {
      PastInside(plain, '-');
      PreWritten(v.prerelease);
    }
  }

  lemma PastInside(s: string, c: char)
    ensures forall k :: 0 <= k < |Past(s, c)| ==> Past(s, c)[k] in s
  {
    forall k | 0 <= k < |Past(s, c)| ensures Past(s, c)[k] in s {
      assert s[IndexOf(s, c) + 1 + k] == Past(s, c)[k];
    }
  }

  lemma PrefixCut(text: string) returns (prefix: string)
    ensures text == prefix + WithoutV(text) && (prefix == "" || prefix == "v" || prefix == "V")
  {
    if text == WithoutV(text) {
      prefix := "";
    } else {
      prefix := [text[0]];
      assert text == prefix + text[1..];
    }
  }

  /** Three numbers and perhaps a pre-release. */
  function Bare(v: SemanticVersion): string {
    CoreText(v.core) + if v.prerelease != "" then "-" + v.prerelease else ""
  }

  /** The form of a version: perhaps a v, three numbers below 2^64 without leading zeros, a
      pre-release after a dash, if it is not empty, and build metadata after a plus. */
  ghost predicate Spells(text: string, v: SemanticVersion, prefix: string, build: Option<string>) {
    && (prefix == "" || prefix == "v" || prefix == "V")
    && |v.core| == 3 && (forall n <- v.core :: n < WORD) && '+' !in v.prerelease
    && text == prefix + (Bare(v) + if build.Some? then "+" + build.value else "")
  }

  /** A string is accepted exactly when it has this form, apart from white space around it,
      and it is read as the numbers and the pre-release written there. */
  lemma AcceptedExactly(s: string, v: SemanticVersion)
    ensures Parse(s) == Some(v) <==> exists prefix, build :: Spells(TrimSpace(s), v, prefix, build)
  {
    if Parse(s) == Some(v) { var prefix, build := SpelledOut(s, v); }
    if prefix, build :| Spells(TrimSpace(s), v, prefix, build) { SpelledRead(s, v, prefix, build); }
  }

  lemma SpelledOut(s: string, v: SemanticVersion) returns (prefix: string, build: Option<string>)
    requires Parse(s) == Some(v)
    ensures Spells(TrimSpace(s), v, prefix, build)
  {
    var value := WithoutV(TrimSpace(s));
    prefix := PrefixCut(TrimSpace(s));
    CutAt(value, '+');
    build := if '+' in value then Some(Past(value, '+')) else None;
    ParsedCore(s);
    BareCut(Before(value, '+'), v);
  }

  lemma BareCut(plain: string, v: SemanticVersion)
    requires '+' !in plain && ('-' in plain ==> Past(plain, '-') != "") && v.prerelease == Past(plain, '-')
    requires ParseCore(Split(Before(plain, '-'), '.')) == Some(v.core)
    ensures Bare(v) == plain && '+' !in v.prerelease && forall n <- v.core :: n < WORD
  {
    CutAt(plain, '-');
    CoreWritten(Split(Before(plain, '-'), '.'));
    JoinSplit(Before(plain, '-'), '.');
    PastInside(plain, '-');
  }

  lemma SpelledRead(s: string, v: SemanticVersion, prefix: string, build: Option<string>)
    requires Spells(TrimSpace(s), v, prefix, build)
    ensures Parse(s) == Some(v)
  {
    var rest := if build.Some? then build.value else "";
    CoreClean(v.core);
    CoreRead(v.core);
    DashCut(CoreText(v.core), v.prerelease != "", v.prerelease);
    PlusCut(Bare(v), build.Some?, rest);
    WithoutPrefix(prefix, Bare(v) + if build.Some? then "+" + rest else "");
  }

  lemma PlusCut(head: string, plus: bool, rest: string)
    requires '+' !in head && head != ""
    ensures var body := head + if plus then "+" + rest else "";
      body != "" && Before(body, '+') == head && body[0] == head[0]
  {
    var body := head + if plus then "+" + rest else "";
    assert body[..|head|] == head;
    if plus { assert body[|head|] == '+'; }
    IndexOfUnique(body, '+', |head|);
  }

  /** Whatever the parser accepts is a written version of the release it reads. */
  lemma AcceptedIsWritten(s: string) returns (l: Label)
    requires Parse(s).Some? && Regular(Parse(s).value)
    ensures ValidLabel(l) && Written(l) == TrimSpace(s) && l.release == ReleaseOf(Parse(s).value)
  {
    var text, v := TrimSpace(s), Parse(s).value;
    var value := WithoutV(text);
    var prefix := PrefixCut(text);
    CutAt(value, '+');
    ParsedCore(s);
    HeadWritten(Before(value, '+'), v);
    l := Label(prefix, ReleaseOf(v), if '+' in value then Some(Past(value, '+')) else None);
    assert Body(l) == value;
    TrimSpaceClean(s);
  }

  // ---------- main results ----------

  predicate Ignored(s: string, t: string, fold: char -> char) {
    EqualFold(TrimPrefixV(TrimSpace(s)), TrimPrefixV(TrimSpace(t)), fold)
  }

  /** Two versions are comparable exactly when both parse or the strings are the same
      up to case and one v. */
  lemma ComparableExactly(s: string, t: string, fold: char -> char)
    ensures Compare(s, t, fold).Some? <==> Ignored(s, t, fold) || (Parse(s).Some? && Parse(t).Some?)
  {
    TrimTwice(s);
    TrimTwice(t);
  }

  lemma TrimTwice(s: string)
    ensures TrimSpace(TrimSpace(s)) == TrimSpace(s) && Parse(TrimSpace(s)) == Parse(s)
  {
    TrimSpaceClean(s);
    TrimmedUnchanged(TrimSpace(s));
  }

  /** One v in front never matters to a text compared with itself, whether it parses or not. */
  lemma OneVIgnored(text: string, fold: char -> char)
    requires Trimmed(text) && text != "" && text[0] != 'v'
    ensures Compare(text, "v" + text, fold) == Compare("v" + text, text, fold) == Compare(text, text, fold) == Some(0)
  {
    var marked := "v" + text;
    assert marked[1..] == text;
    TrimmedUnchanged(text);
    TrimmedUnchanged(marked);
  }

  /** For all parseable strings without leading zeros: where the comparison is the
      precedence of Semantic Versioning. */
  lemma ComparedExactly(s: string, t: string, fold: char -> char)
    requires Parse(s).Some? && Regular(Parse(s).value) && Parse(t).Some? && Regular(Parse(t).value)
    ensures var a, b := ReleaseOf(Parse(s).value), ReleaseOf(Parse(t).value);
      && |a.core| == |b.core|
      && (Compare(s, t, fold) == Some(P.Order(a, b)) <==>
            if Ignored(s, t, fold) then a == b else a.core == b.core ==> PreAgrees(a.pre, b.pre))
  {
    var l := AcceptedIsWritten(s);
    var m := AcceptedIsWritten(t);
    TrimTwice(s);
    TrimTwice(t);
    CompareExact(l, m, fold);
  }

  ghost predicate OrdinaryString(s: string) {
    Parse(s).Some? && Regular(Parse(s).value) && Ordinary(ReleaseOf(Parse(s).value))
  }

  /** Without leading zeros, upper-case letters and numbers past 64 bits in the
      pre-release it always is. */
  lemma OrdinaryStrings(s: string, t: string, fold: char -> char)
    requires OrdinaryString(s) && OrdinaryString(t) && FoldsAscii(fold)
    ensures var a, b := ReleaseOf(Parse(s).value), ReleaseOf(Parse(t).value);
      |a.core| == |b.core| && Compare(s, t, fold) == Some(P.Order(a, b))
  {
    var l := AcceptedIsWritten(s);
    var m := AcceptedIsWritten(t);
    TrimTwice(s);
    TrimTwice(t);
    OrdinaryCompared(l, m, fold);
  }

  /** On such strings the comparison is a total preorder, and ties exactly on equal
      releases. */
  lemma ComparisonOrders(s: string, t: string, u: string, fold: char -> char)
    requires OrdinaryString(s) && OrdinaryString(t) && OrdinaryString(u) && FoldsAscii(fold)
    ensures Compare(s, t, fold).Some? && Compare(t, s, fold) == Some(-Compare(s, t, fold).value)
    ensures Compare(t, u, fold).Some? && Compare(s, u, fold).Some?
    ensures Compare(s, t, fold).value <= 0 && Compare(t, u, fold).value <= 0 ==> Compare(s, u, fold).value <= 0
    ensures Compare(s, t, fold).value == 0 <==> ReleaseOf(Parse(s).value) == ReleaseOf(Parse(t).value)
  {
    OrdinaryStrings(s, t, fold);
    OrdinaryStrings(t, s, fold);
    OrdinaryStrings(t, u, fold);
    OrdinaryStrings(s, u, fold);
    var a, b, c := ReleaseOf(Parse(s).value), ReleaseOf(Parse(t).value), ReleaseOf(Parse(u).value);
    P.OrderTotal(a, b, c);
    assert Compare(s, t, fold).value == P.Order(a, b) && Compare(t, s, fold).value == P.Order(b, a);
    assert Compare(t, u, fold).value == P.Order(b, c) && Compare(s, u, fold).value == P.Order(a, c);
  }

  // ---------- where it departs ----------

  /** The first identifiers that differ are the same number, written differently. */
  predicate SameNumberFirst(l: seq<string>, r: seq<string>) {
    l != [] && r != [] &&
    if l[0] == r[0] then SameNumberFirst(l[1..], r[1..])
    else ParseUint(l[0]).Some? && ParseUint(l[0]) == ParseUint(r[0])
  }

  /** Swapping the sides of a pre-release comparison swaps the answer exactly unless a
      number meets itself with other leading zeros. */
  lemma {:induction false} SwappedExactly(l: seq<string>, r: seq<string>)
    ensures CompareParts(r, l) == -CompareParts(l, r) <==> !SameNumberFirst(l, r)
  {
    if l != [] && r != [] {
      if l[0] == r[0] {
        SwappedExactly(l[1..], r[1..]);
      } else {
        LessTotal(l[0], r[0]);
      }
    }
  }

  lemma LeadingZeroBothGreater()
    ensures CompareParts(["01"], ["1"]) == 1 && CompareParts(["1"], ["01"]) == 1
  {
    assert "01"[..1] == "0" && "0"[..0] == "" && "1"[..0] == "";
    assert Value("0") == 0 && Value("1") == 1 && Value("01") == 1;
  }

  /** Names that differ only in case tie, though the standard orders them. */
  lemma CaseIgnored(core: seq<nat>, name: string, other: string, fold: char -> char)
    requires ValidLabel(Label("", P.Release(core, [P.Name(name)]), None))
      && ValidLabel(Label("", P.Release(core, [P.Name(other)]), None))
    requires EqualFold(name, other, fold) && name != other
    ensures var a, b := Label("", P.Release(core, [P.Name(name)]), None),
      Label("", P.Release(core, [P.Name(other)]), None);
      Compare(Written(a), Written(b), fold) == Some(0) && P.Order(a.release, b.release) != 0
  {
    var a, b := Label("", P.Release(core, [P.Name(name)]), None), Label("", P.Release(core, [P.Name(other)]), None);
    OneName(a, name);
    OneName(b, other);
    FoldedAfter(CoreText(core) + "-", name, other, fold);
    FoldedTie(a, b, fold);
    P.OrderTotal(a.release, b.release, a.release);
  }

  lemma FoldedAfter(front: string, name: string, other: string, fold: char -> char)
    requires EqualFold(name, other, fold)
    ensures EqualFold(front + name, front + other, fold)
  {
  }

  lemma FoldedTie(a: Label, b: Label, fold: char -> char)
    requires ValidLabel(a) && ValidLabel(b) && a.prefix == b.prefix == "" && EqualFold(Body(a), Body(b), fold)
    ensures Compare(Written(a), Written(b), fold) == Some(0)
  {
    BodyParts(a);
    BodyParts(b);
    TrimmedV(a);
    TrimmedV(b);
    TrimmedUnchanged(Written(a));
    TrimmedUnchanged(Written(b));
  }

  lemma OneName(l: Label, name: string)
    requires l.release.pre == [P.Name(name)] && l.build.None?
    ensures Body(l) == CoreText(l.release.core) + "-" + name
  {
    assert IdTexts(l.release.pre) == [name];
  }

  /** d followed by k zeros. */
  function Round(d: nat, k: nat): nat { if k == 0 then d else 10 * Round(d, k - 1) }

  lemma {:induction false} FirstDigit(d: nat, k: nat)
    requires 1 <= d < 10
    ensures Round(d, k) > 0 && Digits(Round(d, k))[0] == DIGITS[d]
  {
    if k == 0 {
      assert Digits(d) == [DIGITS[d]];
    } else {
      FirstDigit(d, k - 1);
      var r := Round(d, k - 1);
      TimesTen(r);
      assert Round(d, k) == 10 * r;
    }
  }

  lemma TimesTen(n: nat)
    requires n > 0
    ensures Digits(10 * n) == Digits(n) + "0" && Digits(10 * n)[0] == Digits(n)[0]
  {
    DigitsMore(n, 0);
    assert 10 * n == n * 10 + 0;
  }

  /** Numbers past 64 bits are compared as texts, so the one with the smaller first
      digit comes out lower even when it is greater. */
  lemma HugeAsText(x: nat, y: nat)
    requires x > y >= WORD && Digits(x)[0] < Digits(y)[0]
    ensures ComparePart(Digits(x), Digits(y)) == -1 && P.IdOrder(P.Number(x), P.Number(y)) == 1
    ensures !PairAgrees(P.Number(x), P.Number(y))
  {
    NumberText(x);
    NumberText(y);
    PairExact(P.Number(x), P.Number(y));
  }

  lemma RoundFour(k: nat)
    ensures Round(1, k + 4) == 10_000 * Round(1, k)
  {
    assert Round(1, k + 2) == 100 * Round(1, k);
    assert Round(1, k + 4) == 100 * Round(1, k + 2);
  }

  lemma {:induction false} RoundTwo(k: nat)
    ensures Round(2, k) == 2 * Round(1, k)
  {
    if k > 0 { RoundTwo(k - 1); }
  }

  lemma RoundLarge(k: nat)
    ensures Round(1, k + 20) == 100_000_000_000_000_000_000 * Round(1, k)
  {
    RoundFour(k);
    RoundFour(k + 4);
    RoundFour(k + 8);
    RoundFour(k + 12);
    RoundFour(k + 16);
  }

  lemma OneBeforeTwo(j: nat, k: nat)
    ensures Digits(Round(1, j))[0] < Digits(Round(2, k))[0]
  {
    FirstDigit(1, j);
    FirstDigit(2, k);
  }

  lemma RoundsHuge(k: nat)
    requires k >= 20
    ensures Round(1, k + 1) > Round(2, k) >= WORD
  {
    RoundLarge(k - 20);
    RoundTwo(k);
    FirstDigit(1, k - 20);
  }

  /** So from the twentieth on, ten times a power of ten counts as lower than its
      double. */
  lemma HugeExample(k: nat)
    requires k >= 20
    ensures Round(1, k + 1) > Round(2, k) >= WORD && ComparePart(Digits(Round(1, k + 1)), Digits(Round(2, k))) == -1
  {
    RoundsHuge(k);
    var x, y := Round(1, k + 1), Round(2, k);
    assert Digits(x)[0] < Digits(y)[0] by { OneBeforeTwo(k + 1, k); }
    HugeAsText(x, y);
  }
}
