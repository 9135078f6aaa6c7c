/** Strings as the program uses them: sequences of Unicode scalar values, in
    code point order (the order of their UTF-8 encodings). */
module Text {

  // ---------- white space ----------

  predicate IsSpace(c: char) {
    || '\t' <= c <= '\r' || c == ' ' || c == '\U{85}' || c == '\U{A0}' || c == '\U{1680}'
    || '\U{2000}' <= c <= '\U{200A}' || c == '\U{2028}' || c == '\U{2029}'
    || c == '\U{202F}' || c == '\U{205F}' || c == '\U{3000}'
  }

  function TrimLeft(s: string): string {
    if s != "" && IsSpace(s[0]) then TrimLeft(s[1..]) else s
  }

  function TrimRight(s: string): string {
    if s != "" && IsSpace(s[|s| - 1]) then TrimRight(s[..|s| - 1]) else s
  }

  function TrimSpace(s: string): string { TrimRight(TrimLeft(s)) }

  predicate Trimmed(s: string) {
    s != "" ==> !IsSpace(s[0]) && !IsSpace(s[|s| - 1])
  }

  predicate Blank(s: string) { TrimSpace(s) == "" }

  lemma TrimmedUnchanged(s: string)
    requires Trimmed(s)
    ensures TrimSpace(s) == s
  {
  }

  lemma {:induction false} TrimLeftClean(s: string)
    ensures TrimLeft(s) != "" ==> !IsSpace(TrimLeft(s)[0])
    ensures forall c <- TrimLeft(s) :: c in s
  {
    if s != "" && IsSpace(s[0]) { TrimLeftClean(s[1..]); }
  }

  lemma {:induction false} TrimRightClean(s: string)
    ensures TrimRight(s) <= s
    ensures TrimRight(s) != "" ==> !IsSpace(TrimRight(s)[|TrimRight(s)| - 1])
  {
    if s != "" && IsSpace(s[|s| - 1]) { TrimRightClean(s[..|s| - 1]); }
  }

  lemma TrimSpaceClean(s: string)
    ensures Trimmed(TrimSpace(s))
    ensures forall c <- TrimSpace(s) :: c in s
  {
    TrimLeftClean(s);
    TrimRightClean(TrimLeft(s));
  }

  predicate AllSpace(s: string) { forall c <- s :: IsSpace(c) }

  lemma {:induction false} TrimLeftIs(left: string, rest: string)
    requires AllSpace(left) && (rest != "" ==> !IsSpace(rest[0]))
    ensures TrimLeft(left + rest) == rest
  {
    if left != "" {
      assert (left + rest)[1..] == left[1..] + rest;
      TrimLeftIs(left[1..], rest);
    } else {
      EmptyFirst(rest);
    }
  }

  lemma {:induction false} TrimRightIs(rest: string, right: string)
    requires AllSpace(right) && (rest != "" ==> !IsSpace(rest[|rest| - 1]))
    ensures TrimRight(rest + right) == rest
  {
    if right != "" {
      var s := rest + right;
      assert s[..|s| - 1] == rest + right[..|right| - 1];
      TrimRightIs(rest, right[..|right| - 1]);
    } else {
      EmptyFirst(rest);
    }
  }

  /** Exactly the white space around is cut off, none inside. */
  lemma TrimExactly(left: string, core: string, right: string)
    requires AllSpace(left) && AllSpace(right) && Trimmed(core)
    ensures TrimSpace(left + core + right) == core
  {
    if core == "" {
      assert left + core + right == left + right + "";
      TrimLeftIs(left + right, "");
    } else {
      assert left + core + right == left + (core + right);
      TrimLeftIs(left, core + right);
      TrimRightIs(core, right);
    }
  }

  function LowerAscii(c: char): char {
    if 'A' <= c <= 'Z' then (c as int + 32) as char else c
  }

  // ---------- pieces of sequences ----------

  lemma FrontLast<T>(s: seq<T>)
    requires s != []
    ensures s == s[..|s| - 1] + [s[|s| - 1]]
  {
  }

  lemma FirstRest<T>(s: seq<T>)
    requires s != []
    ensures s == [s[0]] + s[1..]
  {
  }

  lemma HeadTail<T>(a: seq<T>, b: seq<T>)
    ensures (a + b)[..|a|] == a && (a + b)[|a|..] == b
  {
  }

  lemma CutAgain<T>(s: seq<T>, i: nat)
    requires i < |s|
    ensures s[..i] + [s[i]] + s[i + 1..] == s
  {
  }

  lemma SumAgain<T>(a: seq<T>, b: seq<T>, c: seq<T>)
    ensures a + b + c == a + (b + c)
  {
  }

  lemma WholeSlice<T>(s: seq<T>)
    ensures s[..|s|] == s
  {
  }

  lemma SliceMore<T>(s: seq<T>, i: nat)
    requires i < |s|
    ensures s[..i + 1] == s[..i] + [s[i]] && s[..i + 1][..i] == s[..i]
  {
  }

  lemma EmptyFirst<T>(s: seq<T>)
    ensures [] + s == s && s + [] == s
  {
  }

  lemma SameMap<K(!new), V>(a: map<K, V>, b: map<K, V>)
    requires forall k :: (k in a <==> k in b) && (k in a ==> a[k] == b[k])
    ensures a == b
  {
  }

  // ---------- splitting ----------

  /** Position of the first c, or the length when there is none. */
  function IndexOf(s: string, c: char): (i: nat)
    ensures i <= |s| && c !in s[..i] && (i < |s| ==> s[i] == c)
  {
    if s == "" || s[0] == c then 0 else 1 + IndexOf(s[1..], c)
  }

  lemma IndexOfUnique(s: string, c: char, i: nat)
    requires i <= |s| && c !in s[..i] && (i < |s| ==> s[i] == c)
    ensures IndexOf(s, c) == i
  {
    var k := IndexOf(s, c);
    forall j | 0 <= j < i ensures s[j] != c { assert s[j] == s[..i][j]; }
    forall j | 0 <= j < k ensures s[j] != c { assert s[j] == s[..k][j]; }
  }

  function Split(s: string, c: char): (parts: seq<string>)
    ensures |parts| >= 1
  {
    var i := IndexOf(s, c);
    if i == |s| then [s] else [s[..i]] + Split(s[i + 1..], c)
  }

  function Join(parts: seq<string>, c: char): string {
    if |parts| == 0 then ""
    else if |parts| == 1 then parts[0]
    else parts[0] + [c] + Join(parts[1..], c)
  }

  lemma {:induction false} SplitJoin(parts: seq<string>, c: char)
    requires parts != [] && forall p <- parts :: c !in p
    ensures Split(Join(parts, c), c) == parts
  {
    var s := Join(parts, c);
    if |parts| == 1 {
      assert s == parts[0];
      SplitWhole(s, c);
    } else {
      var head, rest := parts[0], parts[1..];
      assert s == head + [c] + Join(rest, c);
      assert s[..|head|] == head;
      IndexOfUnique(s, c, |head|);
      assert s[|head| + 1..] == Join(rest, c);
      SplitJoin(rest, c);
    }
  }

  lemma {:induction false} JoinSplit(s: string, c: char)
    ensures Join(Split(s, c), c) == s
  {
    var i := IndexOf(s, c);
    if i < |s| {
      JoinSplit(s[i + 1..], c);
      JoinMore(s[..i], Split(s[i + 1..], c), c);
      CutAgain(s, i);
    } else {
      assert Join([s], c) == s;
    }
  }

  lemma JoinMore(head: string, rest: seq<string>, c: char)
    requires rest != []
    ensures Join([head] + rest, c) == head + [c] + Join(rest, c)
  {
    assert ([head] + rest)[1..] == rest;
  }

  lemma {:induction false} SplitPieces(s: string, c: char)
    ensures forall p <- Split(s, c) :: c !in p
  {
    var i := IndexOf(s, c);
    if i < |s| { SplitPieces(s[i + 1..], c); }
  }

  /** A string without c is one piece. */
  lemma SplitWhole(s: string, c: char)
    requires c !in s
    ensures Split(s, c) == [s]
  {
    IndexOfUnique(s, c, |s|);
  }

  // ---------- order ----------

  predicate Less(a: string, b: string) {
    b != "" && (a == "" || a[0] < b[0] || (a[0] == b[0] && Less(a[1..], b[1..])))
  }

  lemma {:induction false} LessTotal(a: string, b: string)
    ensures Less(a, b) || Less(b, a) || a == b
    ensures !(Less(a, b) && Less(b, a))
    ensures Less(a, b) || Less(b, a) ==> a != b
  {
    if a != "" && b != "" && a[0] == b[0] {
      LessTotal(a[1..], b[1..]);
      assert a == [a[0]] + a[1..] && b == [b[0]] + b[1..];
    }
  }

  lemma {:induction false} LessTransitive(a: string, b: string, c: string)
    requires Less(a, b) && Less(b, c)
    ensures Less(a, c)
  {
    if a != "" && a[0] == b[0] == c[0] { LessTransitive(a[1..], b[1..], c[1..]); }
  }

  /** The place where two strings first differ. */
  predicate DifferFirst(a: string, b: string, i: nat) {
    i < |a| && i < |b| && a[..i] == b[..i] && a[i] != b[i]
  }

  /** A proper beginning comes first; otherwise the first difference decides. */
  lemma {:induction false} LessExactly(a: string, b: string, i: nat)
    ensures a <= b ==> (Less(a, b) <==> a != b)
    ensures b <= a ==> !Less(a, b)
    ensures DifferFirst(a, b, i) ==> (Less(a, b) <==> a[i] < b[i])
  {
    if a != "" && b != "" && a[0] == b[0] {
      FirstRest(a);
      FirstRest(b);
      if DifferFirst(a, b, i) {
        assert i > 0;
        assert a[1..][..i - 1] == a[..i][1..] && b[1..][..i - 1] == b[..i][1..];
        LessExactly(a[1..], b[1..], i - 1);
      } else {
        LessExactly(a[1..], b[1..], i);
      }
    }
  }

  predicate Ascending(ks: seq<string>) {
    forall i, j :: 0 <= i < j < |ks| ==> Less(ks[i], ks[j])
  }

  lemma {:induction false} LeastKey(keys: set<string>) returns (least: string)
    requires keys != {}
    ensures least in keys && forall k <- keys :: k != least ==> Less(least, k)
  {
    var k :| k in keys;
    if keys == {k} {
      least := k;
    } else {
      least := LeastKey(keys - {k});
      LessTotal(k, least);
      if Less(k, least) {
        forall o | o in keys && o != k ensures Less(k, o) {
          if o != least { LessTransitive(k, least, o); }
        }
        least := k;
      }
    }
  }

  ghost function Least(keys: set<string>): (least: string)
    requires keys != {}
    ensures least in keys && forall k <- keys :: k != least ==> Less(least, k)
  {
    assert exists k :: k in keys && forall o <- keys :: o != k ==> Less(k, o) by {
      var least := LeastKey(keys);
    }
    var k :| k in keys && forall o <- keys :: o != k ==> Less(k, o);
    k
  }

  ghost predicate SameKeys(ks: seq<string>, keys: set<string>) {
    forall k :: k in ks <==> k in keys
  }

  /** The keys of a set in ascending order. */
  ghost function InOrder(keys: set<string>): (ks: seq<string>)
    ensures Ascending(ks) && SameKeys(ks, keys) && |ks| == |keys|
  {
    if keys == {} then [] else [Least(keys)] + InOrder(keys - {Least(keys)})
  }

  /** Two ascending sequences of the same keys are the same sequence. */
  lemma {:induction false} AscendingUnique(a: seq<string>, b: seq<string>, keys: set<string>)
    requires Ascending(a) && SameKeys(a, keys)
    requires Ascending(b) && SameKeys(b, keys)
    ensures a == b
  {
    NoKeys(a, keys);
    NoKeys(b, keys);
    if a != [] {
      SameLeast(a, b, keys);
      TailKeys(a, keys);
      TailKeys(b, keys);
      AscendingUnique(a[1..], b[1..], keys - {a[0]});
      assert a == [a[0]] + a[1..] && b == [b[0]] + b[1..];
    }
  }

  lemma NoKeys(ks: seq<string>, keys: set<string>)
    requires SameKeys(ks, keys)
    ensures ks == [] <==> keys == {}
  {
    if ks != [] { assert ks[0] in keys; }
  }

  lemma SameLeast(a: seq<string>, b: seq<string>, keys: set<string>)
    requires Ascending(a) && SameKeys(a, keys) && a != []
    requires Ascending(b) && SameKeys(b, keys) && b != []
    ensures a[0] == b[0]
  {
    assert a[0] in keys && b[0] in keys;
    var i :| 0 <= i < |b| && b[i] == a[0];
    var j :| 0 <= j < |a| && a[j] == b[0];
    LessTotal(a[0], b[0]);
  }

  lemma TailKeys(a: seq<string>, keys: set<string>)
    requires Ascending(a) && SameKeys(a, keys) && a != []
    ensures SameKeys(a[1..], keys - {a[0]})
  {
    forall i | 1 <= i < |a| ensures a[i] != a[0] { LessTotal(a[0], a[i]); }
    forall k ensures k in a[1..] <==> k in keys && k != a[0] {
      assert a == [a[0]] + a[1..];
      assert k in a <==> k in keys;
    }
  }

  // ---------- sorting by key ----------

  function Insert<T>(key: T -> string, x: T, s: seq<T>): seq<T> {
    if s == [] || !Less(key(s[0]), key(x)) then [x] + s
    else [s[0]] + Insert(key, x, s[1..])
  }

  /** sort.Slice on a key. */
  function SortBy<T>(key: T -> string, s: seq<T>): seq<T> {
    if s == [] then [] else Insert(key, s[0], SortBy(key, s[1..]))
  }

  function Keys<T>(key: T -> string, s: seq<T>): seq<string> {
    seq(|s|, i requires 0 <= i < |s| => key(s[i]))
  }

  ghost predicate Distinct(ks: seq<string>) {
    forall i, j :: 0 <= i < j < |ks| ==> ks[i] != ks[j]
  }

  lemma {:induction false} InsertElements<T>(key: T -> string, x: T, s: seq<T>)
    ensures multiset(Insert(key, x, s)) == multiset{x} + multiset(s)
  {
    if s == [] || !Less(key(s[0]), key(x)) {
    } else {
      InsertElements(key, x, s[1..]);
      assert s == [s[0]] + s[1..];
    }
  }

  lemma {:induction false} InsertAscending<T>(key: T -> string, x: T, s: seq<T>)
    requires Ascending(Keys(key, s)) && key(x) !in Keys(key, s)
    ensures Ascending(Keys(key, Insert(key, x, s)))
  {
    var ks := Keys(key, s);
    if s == [] {
    } else if !Less(key(s[0]), key(x)) {
      assert ks[0] == key(s[0]);
      LessTotal(key(x), ks[0]);
      forall j | 0 <= j < |ks| ensures Less(key(x), ks[j]) {
        if j > 0 { LessTransitive(key(x), ks[0], ks[j]); }
      }
      assert Keys(key, [x] + s) == [key(x)] + ks;
    } else {
      assert Keys(key, s[1..]) == ks[1..];
      InsertAscending(key, x, s[1..]);
      var rest := Insert(key, x, s[1..]);
      HeadBelow(key, x, s);
      assert Keys(key, [s[0]] + rest) == [key(s[0])] + Keys(key, rest);
    }
  }

  lemma HeadBelow<T>(key: T -> string, x: T, s: seq<T>)
    requires s != [] && Ascending(Keys(key, s)) && Less(key(s[0]), key(x))
    ensures forall j :: 0 <= j < |Insert(key, x, s[1..])| ==> Less(key(s[0]), key(Insert(key, x, s[1..])[j]))
  {
    var rest, tail := Insert(key, x, s[1..]), s[1..];
    InsertElements(key, x, tail);
    forall j | 0 <= j < |rest| ensures Less(key(s[0]), key(rest[j])) {
      assert rest[j] in multiset(rest);
      if rest[j] != x {
        var i :| 0 <= i < |tail| && tail[i] == rest[j];
        assert Keys(key, s)[i + 1] == key(rest[j]) && Keys(key, s)[0] == key(s[0]);
      }
    }
  }

  lemma {:induction false} SortElements<T>(key: T -> string, s: seq<T>)
    ensures multiset(SortBy(key, s)) == multiset(s)
  {
    if s != [] {
      SortElements(key, s[1..]);
      InsertElements(key, s[0], SortBy(key, s[1..]));
      assert s == [s[0]] + s[1..];
    }
  }

  lemma {:induction false} SortAscending<T>(key: T -> string, s: seq<T>)
    requires Distinct(Keys(key, s))
    ensures Ascending(Keys(key, SortBy(key, s)))
  {
    if s != [] {
      var rest := SortBy(key, s[1..]);
      assert Keys(key, s[1..]) == Keys(key, s)[1..];
      SortAscending(key, s[1..]);
      SortElements(key, s[1..]);
      forall i | 0 <= i < |rest| ensures key(rest[i]) != key(s[0]) {
        assert rest[i] in multiset(rest);
        var j :| 0 <= j < |s[1..]| && s[1..][j] == rest[i];
        assert Keys(key, s)[0] != Keys(key, s)[j + 1];
      }
      InsertAscending(key, s[0], rest);
    }
  }

  // ---------- maps keyed by the values' own key ----------

  ghost predicate KeyedBy<T(!new)>(key: T -> string, m: map<string, T>) {
    forall k <- m :: key(m[k]) == k
  }

  /** The values of a map in the order of their keys. */
  ghost function ValuesInOrder<T>(m: map<string, T>): (s: seq<T>)
    ensures |s| == |m|
  {
    var ks := InOrder(m.Keys);
    assert forall i :: 0 <= i < |ks| ==> ks[i] in ks;
    seq(|ks|, i requires 0 <= i < |ks| => m[ks[i]])
  }

  ghost predicate Enumerates<T(!new)>(key: T -> string, s: seq<T>, m: map<string, T>) {
    && Distinct(Keys(key, s))
    && (forall x :: x in s <==> key(x) in m && m[key(x)] == x)
  }

  lemma SortMembers<T>(key: T -> string, s: seq<T>)
    ensures forall x :: x in SortBy(key, s) <==> x in s
  {
    SortElements(key, s);
    assert forall x :: x in SortBy(key, s) <==> x in multiset(SortBy(key, s));
  }

  /** Whatever order a map is ranged over, sorting gives the same sequence. */
  lemma SortedValues<T(!new)>(key: T -> string, s: seq<T>, m: map<string, T>)
    requires KeyedBy(key, m) && Enumerates(key, s, m)
    ensures SortBy(key, s) == ValuesInOrder(m)
  {
    var r := SortBy(key, s);
    SortMembers(key, s);
    SortAscending(key, s);
    var ks := Keys(key, r);
    forall k ensures k in ks <==> k in m.Keys {
      if k in m {
        assert m[k] in r;
        var i :| 0 <= i < |r| && r[i] == m[k];
        assert ks[i] == k;
      }
      if k in ks {
        var i :| 0 <= i < |ks| && ks[i] == k;
        assert r[i] in r;
      }
    }
    AscendingUnique(ks, InOrder(m.Keys), m.Keys);
    forall i | 0 <= i < |r| ensures r[i] == m[ks[i]] {
      assert r[i] in r;
    }
  }

  lemma ValuesInOrderMembers<T(!new)>(key: T -> string, m: map<string, T>)
    requires KeyedBy(key, m)
    ensures Enumerates(key, ValuesInOrder(m), m)
    ensures Keys(key, ValuesInOrder(m)) == InOrder(m.Keys)
  {
    var s, ks := ValuesInOrder(m), InOrder(m.Keys);
    ValuesInOrderKeys(key, m);
    AscendingDistinct(ks);
    forall x ensures x in s <==> key(x) in m && m[key(x)] == x {
      if x in s {
        var i :| 0 <= i < |s| && s[i] == x;
        assert ks[i] in ks;
      }
      if key(x) in m && m[key(x)] == x {
        assert key(x) in ks;
        var i :| 0 <= i < |ks| && ks[i] == key(x);
        assert s[i] == x;
      }
    }
  }

  lemma ValuesInOrderKeys<T(!new)>(key: T -> string, m: map<string, T>)
    requires KeyedBy(key, m)
    ensures Keys(key, ValuesInOrder(m)) == InOrder(m.Keys)
  {
    var s, ks := ValuesInOrder(m), InOrder(m.Keys);
    forall i | 0 <= i < |ks| ensures key(s[i]) == ks[i] { assert ks[i] in ks; }
  }

  lemma AscendingDistinct(ks: seq<string>)
    requires Ascending(ks)
    ensures Distinct(ks)
  {
    forall i, j | 0 <= i < j < |ks| ensures ks[i] != ks[j] { LessTotal(ks[i], ks[j]); }
  }

  lemma DistinctSnoc(ks: seq<string>, k: string)
    ensures Distinct(ks + [k]) <==> Distinct(ks) && k !in ks
  {
    var all := ks + [k];
    if Distinct(all) {
      forall i, j | 0 <= i < j < |ks| ensures ks[i] != ks[j] { assert all[i] != all[j]; }
      forall i | 0 <= i < |ks| ensures ks[i] != k { assert all[i] != all[|ks|]; }
    }
  }

  lemma KeysSnoc<T>(key: T -> string, s: seq<T>, x: T)
    ensures Keys(key, s + [x]) == Keys(key, s) + [key(x)]
    ensures Distinct(Keys(key, s + [x])) <==> Distinct(Keys(key, s)) && key(x) !in Keys(key, s)
  {
    assert Keys(key, s + [x]) == Keys(key, s) + [key(x)];
    DistinctSnoc(Keys(key, s), key(x));
  }

  lemma InKeys<T(!new)>(key: T -> string, s: seq<T>, k: string)
    ensures k in Keys(key, s) <==> exists x :: x in s && key(x) == k
  {
    if k in Keys(key, s) {
      var i :| 0 <= i < |s| && Keys(key, s)[i] == k;
      assert s[i] in s;
    }
    forall x | x in s ensures key(x) in Keys(key, s) {
      var i :| 0 <= i < |s| && s[i] == x;
      assert Keys(key, s)[i] == key(x);
    }
  }

  /** Distinct keys stay distinct in any other order. */
  lemma DistinctPermuted<T>(key: T -> string, s: seq<T>, t: seq<T>)
    requires multiset(s) == multiset(t) && Distinct(Keys(key, s))
    ensures Distinct(Keys(key, t))
  {
    forall i, j | 0 <= i < j < |t| ensures Keys(key, t)[i] != Keys(key, t)[j] {
      if t[i] == t[j] { TwoPlaces(t, i, j); }
      assert t[i] in multiset(s) && t[j] in multiset(s);
      var a :| 0 <= a < |s| && s[a] == t[i];
      var b :| 0 <= b < |s| && s[b] == t[j];
      DistinctPosition(key, s, a);
      if key(t[i]) == key(t[j]) {
        assert b == a;
        OnePlace(s, a);
      }
    }
  }

  lemma TwoPlaces<T>(s: seq<T>, i: nat, j: nat)
    requires i < j < |s| && s[i] == s[j]
    ensures multiset(s)[s[i]] >= 2
  {
    assert s == s[..i] + [s[i]] + s[i + 1..j] + [s[j]] + s[j + 1..];
  }

  /** An element found at one place only is there once. */
  lemma OnePlace<T>(s: seq<T>, i: nat)
    requires i < |s| && forall j: nat :: j < |s| && s[j] == s[i] ==> j == i
    ensures multiset(s)[s[i]] == 1
  {
    assert s == s[..i] + [s[i]] + s[i + 1..];
    assert s[i] !in s[..i] && s[i] !in s[i + 1..];
  }

  lemma NotDistinctFront<T>(key: T -> string, s: seq<T>, n: nat)
    requires n <= |s| && !Distinct(Keys(key, s[..n]))
    ensures !Distinct(Keys(key, s))
  {
    var front, all := Keys(key, s[..n]), Keys(key, s);
    var i, j :| 0 <= i < j < |front| && front[i] == front[j];
    assert all[i] == all[j];
  }

  lemma DistinctPosition<T>(key: T -> string, s: seq<T>, i: nat)
    requires i < |s| && Distinct(Keys(key, s))
    ensures forall j: nat :: j < |s| && key(s[j]) == key(s[i]) ==> j == i
  {
    var ks := Keys(key, s);
    forall j: nat | j < |s| && j != i ensures key(s[j]) != key(s[i]) {
      assert ks[j] == key(s[j]) && ks[i] == key(s[i]);
      assert if i < j then ks[i] != ks[j] else ks[j] != ks[i];
    }
  }

  lemma DistinctSlice<T>(key: T -> string, s: seq<T>, n: nat, m: nat)
    requires n <= m <= |s| && Distinct(Keys(key, s))
    ensures Distinct(Keys(key, s[n..m]))
  {
    assert Keys(key, s[n..m]) == Keys(key, s)[n..m];
  }

  // ---------- ranging over a map ----------

  /** The values of m whose keys have been visited. */
  ghost predicate Visited<T(!new)>(key: T -> string, s: seq<T>, m: map<string, T>, pending: set<string>) {
    && Distinct(Keys(key, s))
    && (forall x :: x in s <==> key(x) in m && m[key(x)] == x && key(x) !in pending)
  }

  lemma VisitNone<T(!new)>(key: T -> string, m: map<string, T>, pending: set<string>)
    requires KeyedBy(key, m) && forall k <- m :: k in pending
    ensures Visited(key, [], m, pending)
  {
  }

  lemma VisitSkip<T(!new)>(key: T -> string, s: seq<T>, m: map<string, T>, pending: set<string>, k: string)
    requires Visited(key, s, m, pending) && k !in m
    ensures Visited(key, s, m, pending - {k})
  {
  }

  lemma VisitTake<T(!new)>(key: T -> string, s: seq<T>, m: map<string, T>, pending: set<string>, k: string)
    requires KeyedBy(key, m) && Visited(key, s, m, pending) && k in m && k in pending
    ensures Visited(key, s + [m[k]], m, pending - {k})
  {
    KeysSnoc(key, s, m[k]);
    InKeys(key, s, k);
  }

  lemma VisitedAll<T(!new)>(key: T -> string, s: seq<T>, m: map<string, T>)
    requires KeyedBy(key, m) && Visited(key, s, m, {})
    ensures SortBy(key, s) == ValuesInOrder(m)
  {
    SortedValues(key, s, m);
  }
}
