/** The comparison of written versions is the precedence of what they stand for. */
module VersionLaws {
  import opened Text
  import opened Decimal
  import opened State
  import opened Version
  import P = Precedence

  // ---------- written versions ----------

  function IdText(id: P.Identifier): string {
    match id
    case Number(n) => Digits(n)
    case Name(t) => t
  }

  function IdTexts(pre: seq<P.Identifier>): seq<string> {
    seq(|pre|, i requires 0 <= i < |pre| => IdText(pre[i]))
  }

  function CoreTexts(core: seq<nat>): seq<string> {
    seq(|core|, i requires 0 <= i < |core| => Digits(core[i]))
  }

  function PreText(pre: seq<P.Identifier>): string { Join(IdTexts(pre), '.') }

  function CoreText(core: seq<nat>): string { Join(CoreTexts(core), '.') }

  function Head(r: P.Release): string {
    CoreText(r.core) + if r.pre == [] then "" else "-" + PreText(r.pre)
  }

  /** A release as it is written: an optional v and optional build metadata. */
  datatype Label = Label(prefix: string, release: P.Release, build: Option<string>)

  function Body(l: Label): string {
    Head(l.release) + if l.build.None? then "" else "+" + l.build.value
  }

  function Written(l: Label): string { l.prefix + Body(l) }

  /** A name is anything without a dot or plus that is not all digits; numbers are
      written without leading zeros. */
  predicate ValidId(id: P.Identifier) {
    id.Name? ==> '.' !in id.text && '+' !in id.text && !Numeric(id.text)
  }

  predicate ValidRelease(r: P.Release) {
    && |r.core| == 3 && (forall n <- r.core :: n < WORD)
    && (forall id <- r.pre :: ValidId(id)) && (r.pre != [] ==> PreText(r.pre) != "")
  }

  predicate ValidLabel(l: Label) {
    (l.prefix == "" || l.prefix == "v" || l.prefix == "V") && ValidRelease(l.release) && Trimmed(Written(l))
  }

  // ---------- reading them back ----------

  lemma NumberText(n: nat)
    ensures Digits(n) != "" && IsDigit(Digits(n)[0]) && forall c <- Digits(n) :: IsDigit(c)
    ensures ParseUint(Digits(n)) == if n < WORD then Some(n) else None
    ensures n < WORD ==> CorePart(Digits(n)) == Some(n)
  {
    DigitsValue(n);
  }

  lemma IdClean(id: P.Identifier)
    requires ValidId(id)
    ensures '.' !in IdText(id) && '+' !in IdText(id)
    ensures ParseUint(IdText(id)) == if id.Number? && id.value < WORD then Some(id.value) else None
  {
    if id.Number? { NumberText(id.value); }
  }

  lemma IdTextInjective(a: P.Identifier, b: P.Identifier)
    requires ValidId(a) && ValidId(b) && IdText(a) == IdText(b)
    ensures a == b
  {
    if a.Number? { DigitsValue(a.value); }
    if b.Number? { DigitsValue(b.value); }
  }

  lemma {:induction false} JoinLacks(parts: seq<string>, separator: char, c: char)
    requires c != separator && forall p <- parts :: c !in p
    ensures c !in Join(parts, separator)
  {
    if |parts| > 1 { JoinLacks(parts[1..], separator, c); }
  }

  lemma CoreClean(core: seq<nat>)
    requires core != []
    ensures '-' !in CoreText(core) && '+' !in CoreText(core)
    ensures CoreText(core) != "" && IsDigit(CoreText(core)[0])
    ensures Split(CoreText(core), '.') == CoreTexts(core)
  {
    var parts := CoreTexts(core);
    forall p | p in parts ensures '-' !in p && '+' !in p && '.' !in p {
      var i :| 0 <= i < |parts| && parts[i] == p;
      NumberText(core[i]);
    }
    NumberText(core[0]);
    JoinLacks(parts, '.', '-');
    JoinLacks(parts, '.', '+');
    SplitJoin(parts, '.');
  }

  lemma {:induction false} CoreRead(core: seq<nat>)
    requires forall n <- core :: n < WORD
    ensures ParseCore(CoreTexts(core)) == Some(core)
  {
    if core != [] {
      var front, last := core[..|core| - 1], core[|core| - 1];
      assert last in core && forall n <- front :: n in core;
      CoreRead(front);
      NumberText(last);
      assert CoreTexts(core) == CoreTexts(front) + [Digits(last)] && core == front + [last];
      assert CoreTexts(core)[..|core| - 1] == CoreTexts(front);
    }
  }

  lemma PreClean(pre: seq<P.Identifier>)
    requires pre != [] && forall id <- pre :: ValidId(id)
    ensures '+' !in PreText(pre) && Split(PreText(pre), '.') == IdTexts(pre)
  {
    var parts := IdTexts(pre);
    forall p | p in parts ensures '+' !in p && '.' !in p {
      var i :| 0 <= i < |parts| && parts[i] == p;
      IdClean(pre[i]);
    }
    JoinLacks(parts, '.', '+');
    SplitJoin(parts, '.');
  }

  lemma HeadParts(r: P.Release)
    requires ValidRelease(r)
    ensures '+' !in Head(r) && Head(r) != "" && IsDigit(Head(r)[0])
    ensures Before(Head(r), '-') == CoreText(r.core) && Past(Head(r), '-') == PreText(r.pre)
    ensures '-' in Head(r) <==> r.pre != []
  {
    CoreClean(r.core);
    if r.pre != [] { PreClean(r.pre); }
    DashCut(CoreText(r.core), r.pre != [], PreText(r.pre));
  }

  lemma DashCut(core: string, dash: bool, rest: string)
    requires '-' !in core && core != "" && (!dash ==> rest == "")
    ensures var head := core + if dash then "-" + rest else "";
      && Before(head, '-') == core && Past(head, '-') == rest && ('-' in head <==> dash) && head[0] == core[0]
  {
    var head := core + if dash then "-" + rest else "";
    assert head[..|core|] == core;
    if dash { assert head[|core|] == '-' && head[|core| + 1..] == rest; }
    IndexOfUnique(head, '-', |core|);
  }

  lemma BodyParts(l: Label)
    requires ValidRelease(l.release)
    ensures Body(l) != "" && IsDigit(Body(l)[0]) && Before(Body(l), '+') == Head(l.release)
  {
    var body, head := Body(l), Head(l.release);
    HeadParts(l.release);
    assert body[0] == head[0] && body[..|head|] == head;
    if l.build.Some? { assert body[|head|] == '+'; }
    IndexOfUnique(body, '+', |head|);
  }

  lemma PrefixDropped(l: Label)
    requires ValidLabel(l)
    ensures WithoutV(Written(l)) == Body(l)
  {
    BodyParts(l);
    WithoutPrefix(l.prefix, Body(l));
  }

  lemma WithoutPrefix(prefix: string, body: string)
    requires prefix == "" || prefix == "v" || prefix == "V"
    requires body != "" && IsDigit(body[0])
    ensures WithoutV(prefix + body) == body
  {
    HeadTail(prefix, body);
    EmptyFirst(body);
  }

  /** What is written is read back as the same numbers and the same pre-release,
      whatever the prefix and the build metadata. */
  lemma ReadBack(l: Label)
    requires ValidLabel(l)
    ensures Parse(Written(l)) == Some(SemanticVersion(l.release.core, PreText(l.release.pre)))
    ensures TrimSpace(Written(l)) == Written(l)
  {
    TrimmedUnchanged(Written(l));
    PrefixDropped(l);
    BodyParts(l);
    HeadParts(l.release);
    CoreClean(l.release.core);
    CoreRead(l.release.core);
  }

  lemma HeadInjective(a: P.Release, b: P.Release)
    requires ValidRelease(a) && ValidRelease(b) && CoreText(a.core) == CoreText(b.core)
      && PreText(a.pre) == PreText(b.pre)
    ensures a == b
  {
    CoreClean(a.core);
    CoreClean(b.core);
    CoreRead(a.core);
    CoreRead(b.core);
    SamePre(a.pre, b.pre);
  }

  lemma SamePre(p: seq<P.Identifier>, q: seq<P.Identifier>)
    requires (forall id <- p :: ValidId(id)) && (p != [] ==> PreText(p) != "")
    requires (forall id <- q :: ValidId(id)) && (q != [] ==> PreText(q) != "")
    requires PreText(p) == PreText(q)
    ensures p == q
  {
    if p != [] && q != [] {
      PreClean(p);
      PreClean(q);
      assert IdTexts(p) == IdTexts(q) && |p| == |q|;
      forall i | 0 <= i < |p| ensures p[i] == q[i] {
        assert IdText(p[i]) == IdTexts(p)[i] == IdTexts(q)[i] == IdText(q[i]);
        IdTextInjective(p[i], q[i]);
      }
    }
  }

  // ---------- identifiers ----------

  /** The code takes this identifier for a text. */
  predicate TakenAsText(id: P.Identifier) { id.Name? || id.value >= WORD }

  /** Where comparing as texts gives the standard's order: not for a number past 64
      bits against a name it follows as a text, nor against another such number of
      a different length in the other order. */
  predicate PairAgrees(a: P.Identifier, b: P.Identifier) {
    TakenAsText(a) && TakenAsText(b) ==>
      match (a, b)
      case (Name(_), Name(_)) => true
      case (Number(_), Name(t)) => Less(IdText(a), t)
      case (Name(t), Number(_)) => Less(IdText(b), t)
      case (Number(_), Number(_)) =>
        |IdText(a)| == |IdText(b)| || (|IdText(a)| < |IdText(b)| <==> Less(IdText(a), IdText(b)))
  }

  lemma {:induction false} LessSnoc(a: string, b: string, c: char, d: char)
    requires |a| == |b|
    ensures Less(a + [c], b + [d]) <==> Less(a, b) || (a == b && c < d)
  {
    if a != "" {
      assert (a + [c])[1..] == a[1..] + [c] && (b + [d])[1..] == b[1..] + [d];
      assert a == [a[0]] + a[1..] && b == [b[0]] + b[1..];
      LessSnoc(a[1..], b[1..], c, d);
    }
  }

  /** One more digit keeps the text order in step with the order of the numbers. */
  lemma LastDigits(m: nat, n: nat, c: nat, d: nat)
    requires c < 10 && d < 10 && |Digits(m)| == |Digits(n)| && (Less(Digits(m), Digits(n)) <==> m < n)
    ensures Less(Digits(m) + [DIGITS[c]], Digits(n) + [DIGITS[d]]) <==> 10 * m + c < 10 * n + d
  {
    LessSnoc(Digits(m), Digits(n), DIGITS[c], DIGITS[d]);
    DigitsValue(m);
    DigitsValue(n);
    DigitOrder(c, d);
  }

  /** Numerals without leading zeros: the shorter is less, and of equal length the
      text order is the order of the numbers. */
  lemma {:induction false} NumeralOrder(x: nat, y: nat)
    ensures |Digits(x)| < |Digits(y)| ==> x < y
    ensures |Digits(x)| == |Digits(y)| ==> (Less(Digits(x), Digits(y)) <==> x < y)
  {
    if x >= 10 && y >= 10 {
      NumeralOrder(x / 10, y / 10);
      if |Digits(x / 10)| == |Digits(y / 10)| { LastDigits(x / 10, y / 10, x % 10, y % 10); }
    } else if x < 10 && y < 10 {
      DigitOrder(x, y);
    }
  }

  lemma DigitOrder(x: nat, y: nat)
    requires x < 10 && y < 10
    ensures DIGITS[x] < DIGITS[y] <==> x < y
  {
  }

  lemma PairExact(a: P.Identifier, b: P.Identifier)
    requires ValidId(a) && ValidId(b) && a != b
    ensures ComparePart(IdText(a), IdText(b)) == P.IdOrder(a, b) <==> PairAgrees(a, b)
  {
    IdClean(a);
    IdClean(b);
    if IdText(a) == IdText(b) { IdTextInjective(a, b); }
    LessTotal(IdText(a), IdText(b));
    if a.Number? && b.Number? {
      NumeralOrder(a.value, b.value);
      NumeralOrder(b.value, a.value);
    }
  }

  /** The first identifiers that differ agree. */
  predicate PreAgrees(p: seq<P.Identifier>, q: seq<P.Identifier>) {
    p == [] || q == [] || (if p[0] == q[0] then PreAgrees(p[1..], q[1..]) else PairAgrees(p[0], q[0]))
  }

  lemma {:induction false} PreExact(p: seq<P.Identifier>, q: seq<P.Identifier>)
    requires (forall id <- p :: ValidId(id)) && (forall id <- q :: ValidId(id))
    ensures CompareParts(IdTexts(p), IdTexts(q)) == P.PreOrder(p, q) <==> PreAgrees(p, q)
  {
    if p != [] && q != [] {
      P.IdTotal(p[0], q[0], p[0]);
      assert IdTexts(p)[1..] == IdTexts(p[1..]) && IdTexts(q)[1..] == IdTexts(q[1..]);
      PreExact(p[1..], q[1..]);
      if p[0] != q[0] {
        if IdText(p[0]) == IdText(q[0]) { IdTextInjective(p[0], q[0]); }
        PairExact(p[0], q[0]);
      }
    }
  }

  lemma {:induction false} CoreExact(a: seq<nat>, b: seq<nat>)
    requires |a| == |b|
    ensures CompareCore(a, b) == P.CoreOrder(a, b)
  {
    if a != [] { CoreExact(a[1..], b[1..]); }
  }

  // ---------- main results ----------

  /** The shortcut at the start of the comparison. */
  predicate Shortcut(a: Label, b: Label, fold: char -> char) {
    EqualFold(TrimPrefixV(Written(a)), TrimPrefixV(Written(b)), fold)
  }

  /** Where the comparison meets the standard: the shortcut fires only for equal
      releases, and the first pre-release identifiers that differ agree. */
  predicate Agrees(a: Label, b: Label, fold: char -> char) {
    if Shortcut(a, b, fold) then a.release == b.release
    else a.release.core == b.release.core ==> PreAgrees(a.release.pre, b.release.pre)
  }

  /** For all written versions: the comparison gives the standard's precedence
      exactly where Agrees says so; prefix and build metadata never matter beyond
      the shortcut. */
  lemma CompareExact(a: Label, b: Label, fold: char -> char)
    requires ValidLabel(a) && ValidLabel(b)
    ensures Compare(Written(a), Written(b), fold) == Some(P.Order(a.release, b.release)) <==> Agrees(a, b, fold)
  {
    ReadBack(a);
    ReadBack(b);
    P.OrderTotal(a.release, b.release, a.release);
    if !Shortcut(a, b, fold) { ParsedExact(a.release, b.release); }
  }

  lemma ParsedExact(a: P.Release, b: P.Release)
    requires ValidRelease(a) && ValidRelease(b)
    ensures CompareParsed(SemanticVersion(a.core, PreText(a.pre)), SemanticVersion(b.core, PreText(b.pre)))
      == P.Order(a, b)
      <==> (a.core == b.core ==> PreAgrees(a.pre, b.pre))
  {
    CoreExact(a.core, b.core);
    P.CoreTotal(a.core, b.core, a.core);
    P.PreTotal(a.pre, b.pre, a.pre);
    if PreText(a.pre) == PreText(b.pre) { SamePre(a.pre, b.pre); }
    if a.pre == b.pre { SameAgrees(a.pre); }
    if a.pre != [] && b.pre != [] {
      PreClean(a.pre);
      PreClean(b.pre);
      PreExact(a.pre, b.pre);
    }
  }

  lemma {:induction false} SameAgrees(p: seq<P.Identifier>)
    ensures PreAgrees(p, p)
  {
    if p != [] { SameAgrees(p[1..]); }
  }

  // ---------- ordinary versions ----------

  ghost predicate FoldsAscii(fold: char -> char) { forall c: char :: c as int < 128 ==> fold(c) == LowerAscii(c) }

  predicate Plainly(c: char) { c as int < 128 && !('A' <= c <= 'Z') }

  /** ASCII without upper-case letters, and numbers that fit in 64 bits. */
  predicate Ordinary(r: P.Release) {
    forall id <- r.pre :: if id.Name? then forall c <- id.text :: Plainly(c) else id.value < WORD
  }

  lemma {:induction false} OrdinaryAgree(p: seq<P.Identifier>, q: seq<P.Identifier>)
    requires forall id <- p :: id.Number? ==> id.value < WORD
    requires forall id <- q :: id.Number? ==> id.value < WORD
    ensures PreAgrees(p, q)
  {
    if p != [] && q != [] {
      assert p[0] in p && q[0] in q;
      OrdinaryAgree(p[1..], q[1..]);
    }
  }

  lemma {:induction false} JoinOf(parts: seq<string>, separator: char, ok: char -> bool)
    requires ok(separator) && forall part <- parts :: forall c <- part :: ok(c)
    ensures forall c <- Join(parts, separator) :: ok(c)
  {
    if |parts| > 1 {
      assert parts[0] in parts && forall part <- parts[1..] :: part in parts;
      JoinOf(parts[1..], separator, ok);
    } else if |parts| == 1 {
      assert parts[0] in parts;
    }
  }

  lemma HeadPlain(r: P.Release)
    requires ValidRelease(r) && Ordinary(r)
    ensures forall c <- Head(r) :: Plainly(c)
  {
    var core, pre := CoreTexts(r.core), IdTexts(r.pre);
    forall part | part in core ensures forall c <- part :: Plainly(c) {
      var i :| 0 <= i < |core| && core[i] == part;
      NumberText(r.core[i]);
    }
    forall part | part in pre ensures forall c <- part :: Plainly(c) {
      var i :| 0 <= i < |pre| && pre[i] == part;
      assert r.pre[i] in r.pre;
      if r.pre[i].Number? { NumberText(r.pre[i].value); }
    }
    JoinOf(core, '.', Plainly);
    JoinOf(pre, '.', Plainly);
  }

  /** Text x is the part of `whole` before the first plus. */
  ghost predicate Heads(x: string, whole: string) {
    x <= whole && '+' !in x && (|x| < |whole| ==> whole[|x|] == '+') && forall c <- x :: Plainly(c)
  }

  /** Ordinary texts that differ only in case have the same head. */
  lemma SameFront(x: string, y: string, a: string, b: string, fold: char -> char)
    requires Heads(x, a) && Heads(y, b) && FoldsAscii(fold) && EqualFold(a, b, fold)
    ensures x == y
  {
    NotShorter(x, y, a, b, fold);
    NotShorter(y, x, b, a, fold);
    forall i | 0 <= i < |x| ensures x[i] == y[i] {
      assert a[i] == x[i] && b[i] == y[i] && x[i] in x && y[i] in y;
    }
  }

  lemma NotShorter(x: string, y: string, a: string, b: string, fold: char -> char)
    requires Heads(x, a) && Heads(y, b) && FoldsAscii(fold) && EqualFold(a, b, fold)
    ensures |x| >= |y|
  {
    forall i | 0 <= i < |y| ensures a[i] != '+' {
      assert b[i] == y[i] && y[i] in y;
    }
  }

  lemma BodyHead(l: Label)
    requires ValidRelease(l.release) && Ordinary(l.release)
    ensures Heads(Head(l.release), Body(l))
  {
    HeadPlain(l.release);
    HeadParts(l.release);
  }

  lemma ShortcutHonest(a: Label, b: Label, fold: char -> char)
    requires ValidLabel(a) && ValidLabel(b) && Ordinary(a.release) && Ordinary(b.release)
    requires FoldsAscii(fold) && Shortcut(a, b, fold)
    ensures a.release == b.release
  {
    BodyParts(a);
    BodyParts(b);
    Unprefixed(a, b, fold);
    BodyHead(a);
    BodyHead(b);
    SameFront(Head(a.release), Head(b.release), Body(a), Body(b), fold);
    HeadParts(a.release);
    HeadParts(b.release);
    HeadInjective(a.release, b.release);
  }

  lemma Unprefixed(a: Label, b: Label, fold: char -> char)
    requires ValidLabel(a) && ValidLabel(b) && FoldsAscii(fold) && Shortcut(a, b, fold)
    requires Body(a) != "" && IsDigit(Body(a)[0]) && Body(b) != "" && IsDigit(Body(b)[0])
    ensures EqualFold(Body(a), Body(b), fold)
  {
    TrimmedV(a);
    TrimmedV(b);
    SameAfterV(Body(a), Body(b), a.prefix == "V", b.prefix == "V", fold);
  }

  lemma SameAfterV(x: string, y: string, v: bool, w: bool, fold: char -> char)
    requires FoldsAscii(fold) && x != "" && IsDigit(x[0]) && y != "" && IsDigit(y[0])
    requires EqualFold(if v then "V" + x else x, if w then "V" + y else y, fold)
    ensures EqualFold(x, y, fold)
  {
    var a, b := if v then "V" + x else x, if w then "V" + y else y;
    assert fold(a[0]) == fold(b[0]) && fold('V') == 'v';
    if v && w { SameTail("V", x, y, fold); }
  }

  lemma SameTail(front: string, x: string, y: string, fold: char -> char)
    requires EqualFold(front + x, front + y, fold)
    ensures EqualFold(x, y, fold)
  {
    var a, b := front + x, front + y;
    forall i | 0 <= i < |x| ensures |x| == |y| && fold(x[i]) == fold(y[i]) {
      assert a[|front| + i] == x[i] && b[|front| + i] == y[i];
    }
  }

  lemma TrimmedV(l: Label)
    requires ValidLabel(l) && Body(l) != "" && IsDigit(Body(l)[0])
    ensures TrimPrefixV(Written(l)) == if l.prefix == "V" then "V" + Body(l) else Body(l)
  {
    if l.prefix == "" { assert Written(l) == Body(l); }
    else if l.prefix == "v" { assert Written(l)[1..] == Body(l); }
  }

  /** Ordinary versions are compared by the standard's precedence. */
  lemma OrdinaryCompared(a: Label, b: Label, fold: char -> char)
    requires ValidLabel(a) && ValidLabel(b) && Ordinary(a.release) && Ordinary(b.release) && FoldsAscii(fold)
    ensures Compare(Written(a), Written(b), fold) == Some(P.Order(a.release, b.release))
  {
    CompareExact(a, b, fold);
    OrdinaryAgree(a.release.pre, b.release.pre);
    if Shortcut(a, b, fold) { ShortcutHonest(a, b, fold); }
  }
}
