/** The details text of an event: printed by formatDetails
    (internal/alerter/manager.go), read back by parseEventDetails
    (internal/dingtalk/message.go). */
module Details {
  import opened Text

  type Fields = map<string, string>

  function Line(k: string, v: string): string { k + "=" + v }

  ghost function Lines(d: Fields, ks: seq<string>): seq<string>
    requires forall k <- ks :: k in d
  {
    seq(|ks|, i requires 0 <= i < |ks| => Line(ks[i], d[ks[i]]))
  }

  /** One key=value line per field, in key order. */
  ghost function DetailsText(d: Fields): string { Join(Lines(d, InOrder(d.Keys)), '\n') }

  method FormatDetails(d: Fields) returns (text: string)
    ensures text == DetailsText(d)
  {
    if |d| == 0 {
      NoDetails(d);
      return "";
    }
    var keys := SortedKeys(d.Keys);
    var lines := FormatLines(d, keys);
    text := Join(lines, '\n');
  }

  /** The text is one line for every field, the keys ascending. */
  lemma TextExactly(d: Fields) returns (keys: seq<string>, lines: seq<string>)
    ensures Ascending(keys) && (forall k :: k in keys <==> k in d) && |lines| == |keys|
    ensures forall i :: 0 <= i < |lines| ==> lines[i] == keys[i] + "=" + d[keys[i]]
    ensures DetailsText(d) == Join(lines, '\n')
  {
    keys := InOrder(d.Keys);
    lines := Lines(d, keys);
  }

  method FormatLines(d: Fields, keys: seq<string>) returns (lines: seq<string>)
    requires forall k <- keys :: k in d
    ensures lines == Lines(d, keys)
  {
    lines := [];
    for i := 0 to |keys|
      invariant lines == Lines(d, keys)[..i]
    {
      assert Lines(d, keys)[i] == Line(keys[i], d[keys[i]]);
      lines := lines + [keys[i] + "=" + d[keys[i]]];
    }
  }

  lemma NoDetails(d: Fields)
    requires d == map[]
    ensures DetailsText(d) == ""
  {
    assert InOrder(d.Keys) == [];
  }

  function Itself(k: string): string { k }

  /** Collects keys in whatever order a map yields them, and sorts. */
  method SortedKeys(all: set<string>) returns (keys: seq<string>)
    ensures keys == InOrder(all)
  {
    keys := [];
    var pending := all;
    while pending != {}
      invariant pending <= all && Distinct(keys)
      invariant forall k :: k in keys <==> k in all && k !in pending
      decreases pending
    {
      var key :| key in pending;
      DistinctSnoc(keys, key);
      pending := pending - {key};
      keys := keys + [key];
    }
    SortKeys(keys, all);
    keys := SortBy(Itself, keys);
  }

  lemma SortKeys(keys: seq<string>, all: set<string>)
    requires Distinct(keys) && SameKeys(keys, all)
    ensures SortBy(Itself, keys) == InOrder(all)
  {
    var sorted := SortBy(Itself, keys);
    assert Keys(Itself, keys) == keys && Keys(Itself, sorted) == sorted;
    SortAscending(Itself, keys);
    SortMembers(Itself, keys);
    AscendingUnique(sorted, InOrder(all), all);
  }

  // ---------- reading ----------

  /** What one line adds: the text before the first '=', trimmed, is the key. */
  function ReadLine(d: Fields, line: string): Fields {
    var i := IndexOf(line, '=');
    if i == |line| || TrimSpace(line[..i]) == "" then d
    else d[TrimSpace(line[..i]) := TrimSpace(line[i + 1..])]
  }

  function ReadLines(lines: seq<string>): Fields {
    if lines == [] then map[] else ReadLine(ReadLines(lines[..|lines| - 1]), lines[|lines| - 1])
  }

  function Parsed(text: string): Fields { ReadLines(Split(text, '\n')) }

  method ParseEventDetails(text: string) returns (details: Fields)
    ensures details == Parsed(text)
  {
    details := map[];
    var lines := Split(text, '\n');
    for i := 0 to |lines|
      invariant details == ReadLines(lines[..i])
    {
      assert lines[..i + 1][..i] == lines[..i];
      var line := lines[i];
      var cut := IndexOf(line, '=');
      if cut == |line| { continue; }
      var key := TrimSpace(line[..cut]);
      if key == "" { continue; }
      details := details[key := TrimSpace(line[cut + 1..])];
    }
    assert lines[..|lines|] == lines;
  }

  /** The line is this text, the first '=', and this item. */
  predicate Cut(line: string, key: string, item: string) { '=' !in key && line == key + "=" + item }

  /** The line tells a value for the field k. */
  ghost predicate Tells(line: string, k: string) {
    k != "" && exists key, item :: Cut(line, key, item) && TrimSpace(key) == k
  }

  /** A line without '=' and one with a blank key add nothing; any other sets its field. */
  lemma ReadLineExactly(d: Fields, line: string, key: string, item: string)
    ensures '=' !in line ==> ReadLine(d, line) == d && forall k :: !Tells(line, k)
    ensures Cut(line, key, item) ==>
      ReadLine(d, line) == if TrimSpace(key) == "" then d else d[TrimSpace(key) := TrimSpace(item)]
    ensures Cut(line, key, item) ==> forall k :: Tells(line, k) <==> k != "" && k == TrimSpace(key)
  {
    if Cut(line, key, item) {
      CutOnce(line, key, item);
      forall k ensures Tells(line, k) <==> k != "" && k == TrimSpace(key) {
        if other, rest :| Cut(line, other, rest) && TrimSpace(other) == k { CutOnce(line, other, rest); }
      }
    }
  }

  lemma CutOnce(line: string, key: string, item: string)
    requires Cut(line, key, item)
    ensures IndexOf(line, '=') == |key| && key == line[..|key|] && item == line[|key| + 1..]
  {
    assert key == line[..|key|] && item == line[|key| + 1..] && line[|key|] == '=';
    IndexOfUnique(line, '=', |key|);
  }

  lemma LineCut(line: string) returns (key: string, item: string)
    requires '=' in line
    ensures Cut(line, key, item)
  {
    var i := IndexOf(line, '=');
    key, item := line[..i], line[i + 1..];
    CutAgain(line, i);
  }

  lemma ReadLineKeys(d: Fields, line: string, k: string)
    ensures k in ReadLine(d, line) <==> k in d || Tells(line, k)
    ensures k in d && !Tells(line, k) ==> ReadLine(d, line)[k] == d[k]
  {
    var key, item := "", "";
    if '=' in line { key, item := LineCut(line); }
    ReadLineExactly(d, line, key, item);
  }

  /** The fields read are those some line tells. */
  lemma {:induction false} ReadExactly(lines: seq<string>, k: string)
    ensures k in ReadLines(lines) <==> exists line :: line in lines && Tells(line, k)
  {
    if lines != [] {
      FrontLast(lines);
      ReadExactly(lines[..|lines| - 1], k);
      ReadLineKeys(ReadLines(lines[..|lines| - 1]), lines[|lines| - 1], k);
    }
  }

  /** Of several lines for a field the last one wins. */
  lemma {:induction false} LastWins(lines: seq<string>, i: nat, key: string, item: string)
    requires i < |lines| && Cut(lines[i], key, item) && TrimSpace(key) != ""
    requires forall j :: i < j < |lines| ==> !Tells(lines[j], TrimSpace(key))
    ensures TrimSpace(key) in ReadLines(lines) && ReadLines(lines)[TrimSpace(key)] == TrimSpace(item)
  {
    var n := |lines| - 1;
    if i == n {
      ReadLineExactly(ReadLines(lines[..n]), lines[n], key, item);
    } else {
      LastWins(lines[..n], i, key, item);
      ReadLineKeys(ReadLines(lines[..n]), lines[n], TrimSpace(key));
    }
  }

  // ---------- round trip ----------

  predicate CleanField(k: string, v: string) {
    && k != "" && '=' !in k && '\n' !in k && Trimmed(k)
    && '\n' !in v && Trimmed(v)
  }

  predicate Clean(d: Fields) { forall k <- d :: CleanField(k, d[k]) }

  lemma {:induction false} ReadLinesClean(lines: seq<string>)
    requires forall l <- lines :: '\n' !in l
    ensures Clean(ReadLines(lines))
  {
    if lines != [] {
      var line := lines[|lines| - 1];
      ReadLinesClean(lines[..|lines| - 1]);
      assert line in lines;
      var i := IndexOf(line, '=');
      TrimSpaceClean(line[..i]);
      if i < |line| { TrimSpaceClean(line[i + 1..]); }
    }
  }

  /** Whatever the text, only clean fields come out. */
  lemma ParsedClean(text: string)
    ensures Clean(Parsed(text))
  {
    SplitPieces(text, '\n');
    ReadLinesClean(Split(text, '\n'));
  }

  lemma ReadLineOfLine(d: Fields, k: string, v: string)
    requires CleanField(k, v)
    ensures ReadLine(d, Line(k, v)) == d[k := v]
  {
    var line := Line(k, v);
    assert line[..|k|] == k && line[|k| + 1..] == v;
    IndexOfUnique(line, '=', |k|);
    TrimmedUnchanged(k);
    TrimmedUnchanged(v);
  }

  lemma {:induction false} ReadLinesOfLines(d: Fields, ks: seq<string>)
    requires Clean(d) && forall k <- ks :: k in d
    ensures ReadLines(Lines(d, ks)) == Restricted(d, ks)
  {
    if ks != [] {
      var front, last := ks[..|ks| - 1], ks[|ks| - 1];
      FrontLast(ks);
      ReadLinesOfLines(d, front);
      assert Lines(d, ks)[..|ks| - 1] == Lines(d, front);
      ReadLineOfLine(ReadLines(Lines(d, front)), last, d[last]);
      RestrictedMore(d, front, last);
    }
  }

  ghost function Restricted(d: Fields, ks: seq<string>): Fields { map k | k in d && k in ks :: d[k] }

  lemma RestrictedMore(d: Fields, ks: seq<string>, k: string)
    requires k in d
    ensures Restricted(d, ks)[k := d[k]] == Restricted(d, ks + [k])
  {
    SameMap(Restricted(d, ks)[k := d[k]], Restricted(d, ks + [k]));
  }

  /** Printing then reading gives the fields back exactly when they are clean. */
  lemma DetailsRoundTrip(d: Fields)
    ensures Parsed(DetailsText(d)) == d <==> Clean(d)
  {
    ParsedClean(DetailsText(d));
    if Clean(d) {
      if d == map[] { NothingRead(); } else { TextRead(d); }
    }
  }

  lemma NothingRead()
    ensures Parsed(DetailsText(map[])) == map[]
  {
    var none: Fields := map[];
    assert InOrder(none.Keys) == [];
    SplitWhole("", '\n');
    assert ReadLines([""]) == ReadLine(ReadLines([]), "") by { assert [""][..0] == []; }
  }

  lemma TextRead(d: Fields)
    requires Clean(d) && d != map[]
    ensures Parsed(DetailsText(d)) == d
  {
    var ks := InOrder(d.Keys);
    assert |ks| > 0;
    SplitJoin(Lines(d, ks), '\n');
    ReadLinesOfLines(d, ks);
    SameMap(Restricted(d, ks), d);
  }
}
