/** The growable byte buffer of strbuf.c and strbuf.h. */
module Strbufs {
  import opened Arith
  import opened Bytes

  const DEFAULT_SIZE: nat := 1023
  const DEFAULT_INCREMENT: int := -2

  /** Size s multiplied k times by the growth factor g. */
  function Times(s: nat, g: nat, k: nat): (r: nat)
  {
    s * Pow(g, k)
  }

  /** r is the first size in s, s*g, s*g*g, ... that is enough. */
  ghost predicate FirstEnough(s: nat, g: nat, req: nat, r: nat)
  {
    r >= req && exists k: nat :: r == Times(s, g, k) && (k == 0 || Times(s, g, k - 1) < req)
  }

  lemma {:induction false} GrowStep(s: nat, g: nat, k: nat)
    ensures Times(s, g, k) * g == Times(s, g, k + 1)
  {
    assert Pow(g, k + 1) == g * Pow(g, k);
    calc {
      Times(s, g, k) * g;
      s * Pow(g, k) * g;
      s * (Pow(g, k) * g);
    }
  }

  lemma {:induction false} TimesZero(s: nat, g: nat)
    ensures Times(s, g, 0) == s
  {
  }

  lemma {:induction false} GrowsBy(n: nat, g: nat)
    requires n > 0 && g > 1
    ensures n * g > n
  {
    MulLe(2, g, n);
  }

  /** The least multiple of m that is not below n. */
  function RoundUp(n: nat, m: nat): (r: nat)
    requires m > 0
  {
    (n + m - 1) / m * m
  }

  lemma {:induction false} RoundUpIs(n: nat, m: nat)
    requires m > 0
    ensures n <= RoundUp(n, m) < n + m && RoundUp(n, m) % m == 0
  {
    var q, r := (n + m - 1) / m, (n + m - 1) % m;
    assert n + m - 1 == q * m + r;
    DivModUnique(q * m, m, q, 0);
  }

  /** Asked for any number of bytes, a new buffer that grows by 1024 gets 1024. */
  lemma {:induction false} LinearFallsShort(len: nat)
    requires len >= 1023
    ensures RoundUp(DEFAULT_SIZE, 1024) == 1024 && (RoundUp(DEFAULT_SIZE, 1024) > len <==> len == 1023)
  {
  }

  /** A buffer that has grown linearly once never grows again. */
  lemma {:induction false} LinearStops(n: nat, m: nat)
    requires m > 0
    ensures RoundUp(RoundUp(n, m), m) == RoundUp(n, m)
  {
    var q := (n + m - 1) / m;
    DivModUnique(q * m + m - 1, m, q, m - 1);
  }

  /** The loop of exponential growth. */
  method Grow(size: nat, factor: nat, reqsize: nat) returns (newsize: nat)
    requires size > 0 && factor > 1
    ensures FirstEnough(size, factor, reqsize, newsize)
  {
    hide Times;
    newsize := size;
    ghost var k: nat := 0;
    TimesZero(size, factor);
    while newsize < reqsize
      invariant newsize == Times(size, factor, k) && newsize > 0
      invariant k == 0 || Times(size, factor, k - 1) < reqsize
      decreases reqsize - newsize
    {
      GrowStep(size, factor, k);
      GrowsBy(newsize, factor);
      newsize := newsize * factor;
      k := k + 1;
    }
  }

  class Strbuf {
    var buf: array<Byte>
    var size: nat
    var length: nat
    var increment: int
    var reallocs: nat

    /** Room for the terminator is always kept. */
    ghost predicate Sized()
      reads this
    {
      size == buf.Length && length < size && (increment < -1 || increment > 0)
    }

    /** With the default, exponential growth. */
    ghost predicate Valid()
      reads this
    {
      Sized() && increment < -1
    }

    ghost function Contents(): (r: seq<Byte>)
      requires Valid()
      reads this, buf
    {
      buf[..length]
    }

    /** strbuf_init. */
    constructor (len: int)
      ensures Valid() && Contents() == [] && fresh(buf) && increment == -2 && reallocs == 0
      ensures size == (if len <= 0 then 1023 else len + 1)
      ensures buf[0] == 0
    {
      var n := if len <= 0 then DEFAULT_SIZE else len + 1;
      size := n;
      length := 0;
      increment := DEFAULT_INCREMENT;
      reallocs := 0;
      buf := new Byte[n];
      new;
      EnsureNull();
    }

    function EmptyLength(): (r: int)
      reads this
    {
      size - length - 1
    }

    method Reset()
      requires Valid()
      modifies `length
      ensures Valid() && Contents() == []
    {
      length := 0;
    }

    method EnsureNull()
      requires Valid()
      modifies buf
      ensures Valid() && buf[length] == 0 && Contents() == old(Contents())
    {
      buf[length] := 0;
    }

    /** strbuf_set_increment with an increment it accepts. */
    method SetIncrement(step: int)
      requires Sized() && (step < -1 || step > 0)
      modifies `increment
      ensures Sized() && increment == step
    {
      increment := step;
    }

    /** The size to reallocate to: exact when that shrinks the buffer; grown until it is enough; or, with linear growth,
        the present size rounded up, whatever was asked for. */
    method CalculateNewSize(len: nat) returns (newsize: nat)
      requires Sized() && len > 0
      ensures size > len + 1 ==> newsize == len + 1
      ensures size <= len + 1 && increment < 0 ==> FirstEnough(size, -increment, len + 1, newsize)
      ensures size <= len + 1 && increment > 0 ==> newsize == RoundUp(size, increment)
    {
      var reqsize := len + 1;
      if size > reqsize {
        return reqsize;
      }
      if increment < 0 {
        newsize := Grow(size, -increment, reqsize);
      } else {
        newsize := (size + increment - 1) / increment * increment;
      }
    }

    /** Another buffer with what fits of the old one. It has room for len bytes and a terminator, except that linear
        growth may fall short of it. */
    method Resize(len: nat)
      requires Sized() && len > 0
      modifies this
      ensures fresh(buf) && size == buf.Length > 0 && reallocs == old(reallocs) + 1
      ensures length == old(length) && increment == old(increment)
      ensures size > len <==> increment < 0 || old(size) > len + 1 || RoundUp(old(size), increment) > len
      ensures var keep := if size < old(size) then size else old(size); buf[..keep] == old(buf[..keep])
      ensures old(Valid()) && length <= len ==> Valid() && Contents() == old(Contents())
    {
      var newsize := CalculateNewSize(len);
      if increment > 0 {
        RoundUpIs(size, increment);
      }
      var keep := if newsize < size then newsize else size;
      var old_buf := buf;
      var bigger := new Byte[newsize];
      forall i | 0 <= i < keep {
        bigger[i] := old_buf[i];
      }
      size := newsize;
      buf := bigger;
      reallocs := reallocs + 1;
      assert buf[..keep] == old_buf[..keep];
    }

    /** After this, len unchecked bytes may be appended. */
    method EnsureEmptyLength(len: nat)
      requires Valid()
      modifies this
      ensures Valid() && Contents() == old(Contents()) && EmptyLength() >= len && size >= length + len + 1
      ensures length == old(length) && increment == old(increment)
      ensures if old(length) + len < old(size) then buf == old(buf) && reallocs == old(reallocs)
              else fresh(buf) && reallocs == old(reallocs) + 1
    {
      if len > EmptyLength() {
        Resize(length + len);
      }
    }

    /** Nothing is checked: the room must be there. */
    method AppendCharUnsafe(c: Byte)
      requires Valid() && EmptyLength() >= 1
      modifies `length, buf
      ensures Valid() && Contents() == old(Contents()) + [c] && length == old(length) + 1
    {
      buf[length] := c;
      length := length + 1;
    }

    method AppendChar(c: Byte)
      requires Valid()
      modifies this, buf
      ensures Valid() && Contents() == old(Contents()) + [c]
      ensures (buf == old(buf) || fresh(buf)) && increment == old(increment)
    {
      EnsureEmptyLength(1);
      AppendCharUnsafe(c);
    }

    method AppendMemUnsafe(c: seq<Byte>)
      requires Valid() && EmptyLength() >= |c|
      modifies `length, buf
      ensures Valid() && Contents() == old(Contents()) + c && length == old(length) + |c|
    {
      var n := length;
      forall i | 0 <= i < |c| {
        buf[n + i] := c[i];
      }
      length := length + |c|;
    }

    method AppendMem(c: seq<Byte>)
      requires Valid()
      modifies this, buf
      ensures Valid() && Contents() == old(Contents()) + c
      ensures (buf == old(buf) || fresh(buf)) && increment == old(increment)
    {
      EnsureEmptyLength(|c|);
      AppendMemUnsafe(c);
    }

    /** One turn of the loop in strbuf_append_string: space is the counted room. */
    method AppendCounted(c: Byte, space0: int) returns (space: int)
      requires Valid() && space0 == EmptyLength()
      modifies this, buf
      ensures Valid() && Contents() == old(Contents()) + [c] && length == old(length) + 1 && space == EmptyLength()
      ensures (buf == old(buf) || fresh(buf)) && increment == old(increment)
      ensures old(EmptyLength()) >= 1 ==> buf == old(buf) && size == old(size) && reallocs == old(reallocs)
    {
      space := space0;
      if space < 1 {
        Resize(length + 1);
        space := EmptyLength();
      }
      buf[length] := c;
      length := length + 1;
      space := space - 1;
    }

    /** strbuf_append_string: one byte at a time, growing when the counted space is used up; str holds the bytes
        before the terminator. */
    method AppendString(str: seq<Byte>)
      requires Valid()
      modifies this, buf
      ensures Valid() && Contents() == old(Contents()) + str && length == old(length) + |str|
      ensures (buf == old(buf) || fresh(buf)) && increment == old(increment)
      ensures old(length) + |str| < old(size) ==> buf == old(buf) && size == old(size) && reallocs == old(reallocs)
    {
      var space := EmptyLength();
      var i := 0;
      while i < |str|
        invariant 0 <= i <= |str|
        invariant Valid() && space == EmptyLength() && length == old(length) + i
        invariant Contents() == old(Contents()) + str[..i]
        invariant (buf == old(buf) || fresh(buf)) && increment == old(increment)
        invariant |str| <= old(EmptyLength()) ==> buf == old(buf) && size == old(size) && reallocs == old(reallocs)
        decreases |str| - i
      {
        space := AppendCounted(str[i], space);
        assert str[..i + 1] == str[..i] + [str[i]];
        i := i + 1;
      }
      assert str[..i] == str;
    }
  }
}
