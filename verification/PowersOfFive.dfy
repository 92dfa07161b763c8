/** pow5mult of dtoa.c and the list p5s of powers 5^(4 * 2^i) that it extends on demand. */
module PowersOfFive {
  import opened Arith
  import opened Words
  import opened Bigints
  import opened Multiply

  /** What node i of the list holds. */
  function NodePower(i: nat): (r: nat)
    ensures r > 0
  {
    Pow(5, 4 * Pow(2, i))
  }

  lemma {:induction false} NodePowerStep(i: nat)
    ensures NodePower(0) == 625
    ensures NodePower(i + 1) == NodePower(i) * NodePower(i)
  {
    assert Pow(2, 0) == 1 && Pow(5, 2) == 25 && Pow(5, 4) == 625;
    assert 4 * Pow(2, i + 1) == 4 * Pow(2, i) + 4 * Pow(2, i);
    PowAdd(5, 4 * Pow(2, i), 4 * Pow(2, i));
  }

  class FiveList {
    var p5s: Bigint?
    ghost var nodes: seq<Bigint>
    ghost var Repr: set<object>

    ghost predicate Node(i: nat)
      requires i < |nodes|
      reads this, Repr
    {
      var n := nodes[i];
      && n in Repr && n.x in Repr
      && n.Valid() && n.wds > 0 && n.Value() == NodePower(i)
      && n.next == if i + 1 < |nodes| then nodes[i + 1] else null
    }

    ghost predicate Valid()
      reads this, Repr
    {
      && this in Repr
      && p5s == (if nodes == [] then null else nodes[0])
      && forall i | 0 <= i < |nodes| :: Node(i)
    }

    /** Numbers the list does not share with its clients. */
    ghost predicate Apart(b: Bigint)
      reads this
    {
      b !in Repr && b.x !in Repr
    }

    constructor ()
      ensures Valid() && nodes == [] && fresh(Repr)
    {
      p5s := null;
      nodes := [];
      Repr := {this};
    }
  }

  /** i2b: a one-word number. */
  method I2B(i: Word) returns (b: Bigint)
    ensures fresh(b) && fresh(b.x) && b.sign == 0
    ensures b.Valid() && b.wds == 1 && b.Value() == i
  {
    b := new Bigint.Balloc(1);
    assert Pow(2, 1) == 2;
    b.x[0] := i;
    b.wds := 1;
    assert b.x[..1] == [i];
    ValOne(i);
  }

  lemma {:induction false} ValOne(i: Word)
    ensures Val([i]) == i
  {
    assert [i][..0] == [];
    assert Weight(0) == 1;
  }

  /** The first node, made on first use. */
  method First(l: FiveList) returns (p5: Bigint)
    requires l.Valid()
    modifies l
    ensures l.Valid() && l.nodes != [] && p5 == l.nodes[0]
    ensures old(l.nodes) <= l.nodes && old(l.Repr) <= l.Repr && fresh(l.Repr - old(l.Repr))
  {
    if l.p5s == null {
      var b := I2B(625);
      NodePowerStep(0);
      b.next := null;
      l.p5s := b;
      l.nodes := [b];
      l.Repr := l.Repr + {b, b.x};
      assert forall i | 0 <= i < |l.nodes| :: l.Node(i);
    }
    p5 := l.p5s;
  }

  /** The node after node i; at the end of the list, the square of the last node is appended. */
  method Successor(l: FiveList, p5: Bigint, ghost i: nat) returns (p51: Bigint)
    requires l.Valid() && i < |l.nodes| && p5 == l.nodes[i]
    modifies l, p5`next
    ensures l.Valid() && i + 1 < |l.nodes| && p51 == l.nodes[i + 1]
    ensures old(l.nodes) <= l.nodes && old(l.Repr) <= l.Repr && fresh(l.Repr - old(l.Repr))
  {
    hide NodePower, Val, Weight, Pow;
    assert l.Node(i);
    if p5.next == null {
      var sq := Mult(p5, p5);
      NodePowerStep(i);
      if sq.wds == 0 {
        ValEmpty(sq.x[..0]);
      }
      ghost var before := l.nodes;
      p5.next := sq;
      sq.next := null;
      l.nodes := l.nodes + [sq];
      l.Repr := l.Repr + {sq, sq.x};
      p51 := p5.next;
      forall t | 0 <= t < |l.nodes|
        ensures l.Node(t)
      {
        if t <= i {
          assert old(l.Node(t));
        }
      }
    } else {
      p51 := p5.next;
    }
  }

  /** In pow5mult's squaring loop, v and what is left to multiply it by. */
  ghost function Left(v: nat, i: nat, k: nat): nat
  {
    v * Pow(NodePower(i), k)
  }

  lemma {:induction false} LeftStart(v: nat, k: nat)
    ensures Left(v, 0, k) == v * Pow(625, k)
  {
    NodePowerStep(0);
    hide NodePower, Pow;
  }

  lemma {:induction false} LeftEnd(v: nat, i: nat)
    ensures Left(v, i, 0) == v
  {
    PowOne(NodePower(i));
    hide NodePower, Pow;
  }

  /** One turn: an odd exponent takes a factor, and the base is squared. */
  lemma {:induction false} SquaringStep(v: nat, k: nat, i: nat) returns (done: nat)
    requires k > 0
    ensures done == if k % 2 == 1 then v * NodePower(i) else v
    ensures Left(v, i, k) == Left(done, i + 1, k / 2)
  {
    hide Pow, NodePower;
    var p := NodePower(i);
    done := if k % 2 == 1 then v * p else v;
    NodePowerStep(i);
    PowAdd(p, k / 2, k / 2);
    PowProduct(p, p, k / 2);
    if k % 2 == 1 {
      PowAdd(p, 1, 2 * (k / 2));
      PowOne(p);
      MulAssoc(v, p, Pow(p * p, k / 2));
    }
  }

  /** The loop of pow5mult: by squaring along the list. */
  method SquaringLoop(l: FiveList, b0: Bigint, k0: nat) returns (b: Bigint)
    requires l.Valid() && b0.Valid() && l.Apart(b0) && k0 > 0
    modifies l, l.Repr
    ensures fresh(b) && fresh(b.x) && l.Apart(b)
    ensures b.Valid() && b.Value() == old(b0.Value()) * Pow(625, k0)
    ensures l.Valid() && old(l.nodes) <= l.nodes && old(l.Repr) <= l.Repr && fresh(l.Repr - old(l.Repr))
  {
    hide Pow, NodePower, Val, Weight, Left;
    b := b0;
    var k := k0;
    var p5 := First(l);
    ghost var i, total := 0, b.Value() * Pow(625, k0);
    NodePowerStep(0);
    LeftStart(b.Value(), k);
    while true
      invariant l.Valid() && i < |l.nodes| && p5 == l.nodes[i] && k > 0
      invariant old(l.nodes) <= l.nodes && old(l.Repr) <= l.Repr && fresh(l.Repr - old(l.Repr))
      invariant b == b0 || (fresh(b) && fresh(b.x))
      invariant l.Apart(b) && b.Valid()
      invariant Left(b.Value(), i, k) == total
      decreases k
    {
      ghost var done := SquaringStep(b.Value(), k, i);
      assert l.Node(i);
      if k % 2 == 1 {
        b := Mult(b, p5);
      }
      k := k / 2;
      if k == 0 {
        LeftEnd(done, i + 1);
        break;
      }
      p5 := Successor(l, p5, i);
      i := i + 1;
    }
  }

  function SmallFive(i: nat): (r: nat)
    requires 1 <= i <= 3
  {
    [5, 25, 125][i - 1]
  }

  lemma {:induction false} FiveSplit(v: nat, k: nat)
    ensures k % 4 > 0 ==> Pow(5, k % 4) == SmallFive(k % 4)
    ensures v * Pow(5, k) == v * Pow(5, k % 4) * Pow(625, k / 4)
  {
    assert Pow(5, 1) == 5 && Pow(5, 2) == 25 && Pow(5, 3) == 125 && Pow(5, 4) == 625;
    SplitExponent(v, k);
  }

  lemma {:induction false} SplitExponent(v: nat, k: nat)
    requires Pow(5, 4) == 625
    ensures v * Pow(5, k) == v * Pow(5, k % 4) * Pow(625, k / 4)
  {
    hide Pow;
    PowPower(5, 4, k / 4);
    PowAdd(5, k % 4, 4 * (k / 4));
    MulAssoc(v, Pow(5, k % 4), Pow(625, k / 4));
  }

  /** pow5mult: b times 5^k, whatever the list already holds. */
  method Pow5Mult(l: FiveList, b0: Bigint, k0: nat) returns (b: Bigint)
    requires l.Valid() && b0.Valid() && l.Apart(b0)
    modifies l, l.Repr, b0, b0.x
    ensures b == b0 || (fresh(b) && fresh(b.x))
    ensures l.Apart(b) && b.Valid() && b.Value() == old(b0.Value()) * Pow(5, k0)
    ensures l.Valid() && old(l.nodes) <= l.nodes && old(l.Repr) <= l.Repr && fresh(l.Repr - old(l.Repr))
  {
    hide Pow, NodePower, Val, Weight;
    b := b0;
    var k := k0;
    FiveSplit(b.Value(), k);
    PowOne(5);
    PowOne(625);
    var i := k % 4;
    if i != 0 {
      b := MultAdd(b, SmallFive(i), 0);
      assert l.Valid() by {
        forall i | 0 <= i < |l.nodes|
          ensures l.Node(i)
        {
          assert old(l.Node(i));
        }
      }
    }
    k := k / 4;
    if k != 0 {
      b := SquaringLoop(l, b, k);
    }
  }
}
