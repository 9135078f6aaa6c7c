/** Precedence of Semantic Versioning 2.0.0 (items 9 and 11), on releases as values. */
module Precedence {
  import opened Text

  datatype Identifier = Number(value: nat) | Name(text: string)

  /** Three numbers and the pre-release identifiers; build metadata is no part of it. */
  datatype Release = Release(core: seq<nat>, pre: seq<Identifier>)

  function Sign(less: bool, equal: bool): int { if equal then 0 else if less then -1 else 1 }

  function CoreOrder(a: seq<nat>, b: seq<nat>): int
    requires |a| == |b|
  {
    if a == [] then 0
    else if a[0] != b[0] then Sign(a[0] < b[0], false)
    else CoreOrder(a[1..], b[1..])
  }

  /** Numbers numerically, names in ASCII order, numbers before names. */
  function IdOrder(a: Identifier, b: Identifier): int {
    match (a, b)
    case (Number(x), Number(y)) => Sign(x < y, x == y)
    case (Number(_), Name(_)) => -1
    case (Name(_), Number(_)) => 1
    case (Name(x), Name(y)) => Sign(Less(x, y), x == y)
  }

  /** Field by field; of two equal beginnings the longer one is higher. */
  function PreOrder(p: seq<Identifier>, q: seq<Identifier>): int {
    if p == [] then Sign(true, q == [])
    else if q == [] then 1
    else if IdOrder(p[0], q[0]) != 0 then IdOrder(p[0], q[0])
    else PreOrder(p[1..], q[1..])
  }

  /** A pre-release comes before its release. */
  function Order(a: Release, b: Release): int
    requires |a.core| == |b.core|
  {
    if CoreOrder(a.core, b.core) != 0 then CoreOrder(a.core, b.core)
    else if a.pre == [] then Sign(false, b.pre == [])
    else if b.pre == [] then -1
    else PreOrder(a.pre, b.pre)
  }

  lemma IdTotal(a: Identifier, b: Identifier, c: Identifier)
    ensures IdOrder(a, b) == -IdOrder(b, a) && (IdOrder(a, b) == 0 <==> a == b)
    ensures IdOrder(a, b) < 0 && IdOrder(b, c) < 0 ==> IdOrder(a, c) < 0
  {
    if a.Name? && b.Name? {
      LessTotal(a.text, b.text);
      if c.Name? && Less(a.text, b.text) && Less(b.text, c.text) {
        LessTransitive(a.text, b.text, c.text);
        LessTotal(b.text, c.text);
        LessTotal(a.text, c.text);
      }
    }
  }

  lemma {:induction false} PreTotal(p: seq<Identifier>, q: seq<Identifier>, r: seq<Identifier>)
    ensures PreOrder(p, q) == -PreOrder(q, p) && (PreOrder(p, q) == 0 <==> p == q)
    ensures PreOrder(p, q) < 0 && PreOrder(q, r) < 0 ==> PreOrder(p, r) < 0
  {
    if p != [] && q != [] {
      var c := if r == [] then p[0] else r[0];
      IdTotal(p[0], q[0], c);
      PreTotal(p[1..], q[1..], if r == [] then [] else r[1..]);
      assert p == [p[0]] + p[1..] && q == [q[0]] + q[1..];
    }
  }

  lemma {:induction false} CoreTotal(a: seq<nat>, b: seq<nat>, c: seq<nat>)
    requires |a| == |b| == |c|
    ensures CoreOrder(a, b) == -CoreOrder(b, a) && (CoreOrder(a, b) == 0 <==> a == b)
    ensures CoreOrder(a, b) < 0 && CoreOrder(b, c) < 0 ==> CoreOrder(a, c) < 0
  {
    if a != [] {
      CoreTotal(a[1..], b[1..], c[1..]);
      assert a == [a[0]] + a[1..] && b == [b[0]] + b[1..];
    }
  }

  /** Precedence is a total order on releases. */
  lemma OrderTotal(a: Release, b: Release, c: Release)
    requires |a.core| == |b.core| == |c.core|
    ensures Order(a, b) == -Order(b, a) && (Order(a, b) == 0 <==> a == b)
    ensures Order(a, b) < 0 && Order(b, c) < 0 ==> Order(a, c) < 0
    ensures Order(a, b) <= 0 && Order(b, c) <= 0 ==> Order(a, c) <= 0
  {
    CoreTotal(a.core, b.core, c.core);
    CoreTotal(b.core, c.core, a.core);
    PreTotal(a.pre, b.pre, c.pre);
    PreTotal(b.pre, c.pre, a.pre);
  }
}
