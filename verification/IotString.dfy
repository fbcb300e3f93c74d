/** The growable byte string under the HTTP parser and most of the native modules. */
module IotString {
  import opened Prelude

  const NUL: byte := 0

  // ------------------------------------------------------------- C functions

  /** What strncpy() writes: bytes after the first NUL are replaced by NULs. */
  function Strncpy(src: seq<byte>): (dst: seq<byte>)
    ensures |dst| == |src|
  {
    seq(|src|, i requires 0 <= i < |src| => if NUL in src[..i] then NUL else src[i])
  }

  function Strlen(s: seq<byte>): (n: nat)
    requires NUL in s
    ensures n < |s| && s[n] == NUL && NUL !in s[..n]
  {
    if s[0] == NUL then 0
    else
      assert s == [s[0]] + s[1..];
      assert forall k: nat :: k < |s[1..]| ==> s[..k + 1] == [s[0]] + s[1..][..k];
      1 + Strlen(s[1..])
  }

  /** strncpy() is a faithful copy exactly when nothing but NULs follows a NUL. */
  lemma StrncpyFaithful(src: seq<byte>)
    ensures Strncpy(src) == src
       <==> forall i, j :: 0 <= i < j < |src| && src[i] == NUL ==> src[j] == NUL
  {
    if Strncpy(src) == src {
      forall i, j | 0 <= i < j < |src| && src[i] == NUL
        ensures src[j] == NUL
      {
        assert src[..j][i] == NUL;
        assert Strncpy(src)[j] == NUL;
      }
    } else {
      var j :| 0 <= j < |src| && Strncpy(src)[j] != src[j];
      var i :| 0 <= i < j && src[..j][i] == NUL;
      assert src[i] == NUL;
    }
  }

  /** It has the length of its source, keeps it up to the first NUL, and has only NULs from there. */
  lemma StrncpyMeaning(src: seq<byte>)
    ensures NUL !in src ==> Strncpy(src) == src
    ensures NUL in src ==> && Strncpy(src)[..Strlen(src)] == src[..Strlen(src)]
                           && forall i :: Strlen(src) <= i < |src| ==> Strncpy(src)[i] == NUL
  {
    if NUL in src {
      var n, dst := Strlen(src), Strncpy(src);
      forall i | 0 <= i < |src|
        ensures dst[i] == if i < n then src[i] else NUL
      {
        if i < n {
          assert src[..i] == src[..n][..i];
        } else if i > n {
          assert src[..i][n] == NUL;
        }
      }
      hide Strncpy;
    }
  }

  // ------------------------------------------------------------------ growth

  /** The doubling loop. */
  function Doubled(cap: nat, need: nat): nat
    requires cap > 0
    decreases need - cap
  {
    if cap >= need then cap else Doubled(2 * cap, need)
  }

  lemma {:induction false} DoubledBounds(cap: nat, need: nat)
    requires 0 < cap < need
    ensures need <= Doubled(cap, need) < 2 * need
    ensures 2 * cap <= Doubled(cap, need)
    decreases need - cap
  {
    if 2 * cap < need { DoubledBounds(2 * cap, need); }
  }

  function Twice(cap: nat, times: nat): nat
    decreases times
  {
    if times == 0 then cap else Twice(2 * cap, times - 1)
  }

  /** `k` doublings are enough and fewer are not. */
  ghost predicate Least(cap: nat, need: nat, k: nat) {
    need <= Twice(cap, k) && forall j: nat :: j < k ==> Twice(cap, j) < need
  }

  /** The capacity is doubled as often as needed, and not once more. */
  lemma {:induction false} DoubledIsLeast(cap: nat, need: nat)
    requires 0 < cap
    ensures exists k: nat :: Least(cap, need, k) && Doubled(cap, need) == Twice(cap, k)
    decreases need - cap
  {
    if cap >= need {
      assert Least(cap, need, 0) && Doubled(cap, need) == Twice(cap, 0);
    } else {
      var c := 2 * cap;
      DoubledIsLeast(c, need);
      var k: nat :| Least(c, need, k) && Doubled(c, need) == Twice(c, k);
      forall j: nat | j < k + 1
        ensures Twice(cap, j) < need
      {
        if j > 0 { assert Twice(cap, j) == Twice(c, j - 1); }
      }
      assert Least(cap, need, k + 1) && Doubled(cap, need) == Twice(cap, k + 1);
    }
  }

  /** Sizes of a string, and the total capacity of the blocks its reallocations copied. */
  datatype Sizes = Sizes(size: nat, cap: nat, copied: nat)

  function Appended(s: Sizes, n: nat): Sizes {
    var size := s.size + n;
    if n == 0 then s
    else if s.cap == 0 then Sizes(size, size, s.copied)
    else if s.cap >= size then Sizes(size, s.cap, s.copied)
    else Sizes(size, Doubled(s.cap, size), s.copied + s.cap)
  }

  function AppendedAll(s: Sizes, ns: seq<nat>): Sizes
    decreases |ns|
  {
    if ns == [] then s else AppendedAll(Appended(s, ns[0]), ns[1..])
  }

  ghost predicate Tight(s: Sizes) {
    && s.size <= s.cap
    && (s.size > 0 ==> s.cap < 2 * s.size)
    && (s.cap == 0 ==> s.copied == 0)
    && (s.cap > 0 ==> s.copied < s.cap)
  }

  lemma AppendedTight(s: Sizes, n: nat)
    requires Tight(s) && (s.cap > 0 ==> s.size > 0)
    ensures Tight(Appended(s, n)) && (Appended(s, n).cap > 0 ==> Appended(s, n).size > 0)
  {
    if 0 < s.cap < s.size + n { DoubledBounds(s.cap, s.size + n); }
  }

  /**
   Amortised cost: however a text is split into appends, all the copying done by
   reallocations together is less than twice the text's length.
   */
  lemma {:induction false} Amortised(s: Sizes, ns: seq<nat>)
    requires Tight(s) && (s.cap > 0 ==> s.size > 0)
    ensures var t := AppendedAll(s, ns);
            Tight(t) && (t.size == 0 ==> t.copied == 0) && (t.size > 0 ==> t.copied < 2 * t.size)
    decreases |ns|
  {
    if ns != [] {
      AppendedTight(s, ns[0]);
      Amortised(Appended(s, ns[0]), ns[1..]);
    }
  }

  // ------------------------------------------------------------------- class

  class String {
    var size: nat
    var cap: nat
    var data: array?<byte>  // null stands for the shared static empty string

    ghost var copied: nat

    ghost predicate Valid()
      reads this, data
    {
      && size <= cap
      && (data == null <==> cap == 0)
      && (data != null ==> data.Length == cap + 1 && data[size] == NUL)
    }

    ghost function Bytes(): seq<byte>
      requires Valid()
      reads this, data
    {
      if data == null then [] else data[..size]
    }

    ghost function View(): Sizes
      reads this
    {
      Sizes(size, cap, copied)
    }

    constructor CreateWithSize(src: seq<byte>)
      requires NUL !in src
      ensures Valid() && Bytes() == src && View() == Sizes(|src|, |src|, 0)
      ensures data != null ==> fresh(data)
    {
      size, cap, copied := |src|, |src|, 0;
      data := null;
      new;
      if |src| > 0 {
        data := new byte[|src| + 1];
        forall i | 0 <= i < |src| { data[i] := src[i]; }
        data[|src|] := NUL;
        assert data[..size] == src;
      }
    }

    method Reserve(capacity: nat)
      requires Valid()
      modifies this
      ensures Valid() && Bytes() == old(Bytes()) && size == old(size) && copied == old(copied)
      ensures cap == if old(cap) >= capacity then old(cap) else capacity
      ensures data == old(data) || fresh(data)
    {
      if cap >= capacity {
        return;
      }
      if cap == 0 {
        data := new byte[capacity + 1](_ => NUL);
      } else {
        Reallocate(capacity);
      }
      cap := capacity;
    }

    method MakeEmpty()
      requires Valid()
      modifies this
      ensures Valid() && Bytes() == [] && size == cap == 0 && copied == old(copied)
      ensures data == null
    {
      if data != null {
        cap, size := 0, 0;
        data := null;
      }
    }

    /** `count < 0` asks for everything up to the terminating NUL. */
    method Append(src: seq<byte>, count: int)
      requires Valid()
      requires if count < 0 then NUL in src else count <= |src|
      modifies this, data
      ensures Valid()
      ensures var n := if count < 0 then Strlen(src) else count;
              && Bytes() == old(Bytes()) + Strncpy(src[..n])
              && View() == Appended(old(View()), n)
              && size == old(size) + n
              && cap == (if old(cap) == 0 then n
                         else if old(cap) >= size then old(cap)
                         else Doubled(old(cap), size))
      ensures data == old(data) || fresh(data)
    {
      var n := if count < 0 then Strlen(src) else count;
      if n == 0 {
        assert Bytes() + Strncpy(src[..0]) == Bytes();
        return;
      }
      AppendBytes(src[..n]);
    }

    method AppendBytes(src: seq<byte>)
      requires Valid() && src != []
      modifies this, data
      ensures Valid()
      ensures Bytes() == old(Bytes()) + Strncpy(src)
      ensures View() == Appended(old(View()), |src|)
      ensures data == old(data) || fresh(data)
    {
      hide Strncpy, Doubled;
      ghost var bytes := Bytes();
      var at := size;
      if cap == 0 {
        cap := |src|;
        data := new byte[cap + 1];
      } else if cap < size + |src| {
        Grow(size + |src|);
      }
      assert data[..at] == bytes;
      Copy(at, src);
      size := at + |src|;
      data[size] := NUL;
    }

    /** Lack of capacity: double it until `need` bytes fit, and move the text. */
    method Grow(need: nat)
      requires data != null && 0 < cap < need && data.Length == cap + 1
      modifies this
      ensures View() == old(Sizes(size, Doubled(cap, need), copied + cap))
      ensures fresh(data) && need <= cap && data.Length == cap + 1
      ensures data[..old(data.Length)] == old(data[..])
    {
      ghost var before := cap;
      DoubledBounds(cap, need);
      while cap < need
        invariant 0 < cap && Doubled(before, need) == Doubled(cap, need)
        invariant before <= cap
        modifies `cap
      {
        cap := cap * 2;
      }
      Reallocate(cap);
      copied := copied + before;
    }

    /** A larger block with the old one's contents in front. */
    method Reallocate(capacity: nat)
      requires data != null && data.Length <= capacity + 1
      modifies `data
      ensures fresh(data) && data.Length == capacity + 1
      ensures data[..old(data.Length)] == old(data[..])
    {
      var block := new byte[capacity + 1];
      forall i | 0 <= i < data.Length { block[i] := data[i]; }
      data := block;
    }

    method Copy(at: nat, src: seq<byte>)
      requires data != null && at + |src| < data.Length
      modifies data
      ensures data[..at + |src|] == old(data[..at]) + Strncpy(src)
    {
      var bytes := Strncpy(src);
      forall i | 0 <= i < |src| { data[at + i] := bytes[i]; }
      assert data[..at] == old(data[..at]);
      assert data[..at + |src|] == data[..at] + data[at..at + |src|];
      assert data[at..at + |src|] == bytes;
    }
  }
}
