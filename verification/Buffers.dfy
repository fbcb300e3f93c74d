/** Byte buffers: comparison, clamped copies, slices, concatenation and text. */
module Buffers {
  import opened Prelude

  const NUL: byte := 0

  datatype Result<+T> = Ok(value: T) | RangeError

  // -------------------------------------------------------------- comparison

  /** The value of a C `char`, which is signed on some platforms. */
  function CharValue(b: byte, signed: bool): int {
    if signed && b >= 128 then b as int - 256 else b as int
  }

  function Lex(a: seq<byte>, b: seq<byte>, signed: bool): int
    decreases |a|
  {
    if a == [] then (if b == [] then 0 else -1)
    else if b == [] then 1
    else if CharValue(a[0], signed) < CharValue(b[0], signed) then -1
    else if CharValue(a[0], signed) > CharValue(b[0], signed) then 1
    else Lex(a[1..], b[1..], signed)
  }

  lemma {:induction false} LexZeroIsEqual(a: seq<byte>, b: seq<byte>, signed: bool)
    ensures Lex(a, b, signed) == 0 <==> a == b
    decreases |a|
  {
    if a != [] && b != [] {
      LexZeroIsEqual(a[1..], b[1..], signed);
      assert a == [a[0]] + a[1..] && b == [b[0]] + b[1..];
    }
  }

  lemma {:induction false} LexAntisymmetric(a: seq<byte>, b: seq<byte>, signed: bool)
    ensures Lex(a, b, signed) == -Lex(b, a, signed)
    decreases |a|
  {
    if a != [] && b != [] { LexAntisymmetric(a[1..], b[1..], signed); }
  }

  lemma {:induction false} LexTransitive(a: seq<byte>, b: seq<byte>, c: seq<byte>, signed: bool)
    requires Lex(a, b, signed) <= 0 && Lex(b, c, signed) <= 0
    ensures Lex(a, c, signed) <= 0
    ensures Lex(a, b, signed) < 0 || Lex(b, c, signed) < 0 ==> Lex(a, c, signed) < 0
    decreases |a|
  {
    if a != [] && b != [] && c != [] && a[0] == b[0] == c[0] {
      LexTransitive(a[1..], b[1..], c[1..], signed);
    }
  }

  /** Smaller as bytes; if `char` is signed, bytes from 128 on are smaller than the others. */
  predicate Smaller(x: byte, y: byte, signed: bool) {
    if signed && (x < 128) != (y < 128) then y < 128 else x < y
  }

  /** `k` is the first index at which the two differ, and `a` has the smaller byte there. */
  predicate SmallerAt(a: seq<byte>, b: seq<byte>, signed: bool, k: nat) {
    k < |a| && k < |b| && a[..k] == b[..k] && Smaller(a[k], b[k], signed)
  }

  lemma SmallerAtTail(a: seq<byte>, b: seq<byte>, signed: bool, k: nat)
    requires a != [] && b != [] && a[0] == b[0]
    ensures SmallerAt(a[1..], b[1..], signed, k) <==> SmallerAt(a, b, signed, k + 1)
  {
    if k < |a| - 1 && k < |b| - 1 {
      assert a[..k + 1] == [a[0]] + a[1..][..k] && b[..k + 1] == [b[0]] + b[1..][..k];
      assert a[1..][..k] == a[..k + 1][1..] && b[1..][..k] == b[..k + 1][1..];
    }
  }

  /** Less means: a proper prefix, or a smaller byte at the first difference. */
  lemma {:induction false} LexMeaning(a: seq<byte>, b: seq<byte>, signed: bool)
    ensures Lex(a, b, signed) == -1 <==> a < b || exists k: nat :: SmallerAt(a, b, signed, k)
    decreases |a|
  {
    if a == [] || b == [] {
    } else if a[0] == b[0] {
      LexMeaning(a[1..], b[1..], signed);
      assert a == [a[0]] + a[1..] && b == [b[0]] + b[1..];
      assert a < b <==> a[1..] < b[1..];
      if k: nat :| SmallerAt(a[1..], b[1..], signed, k) { SmallerAtTail(a, b, signed, k); }
      if k: nat :| SmallerAt(a, b, signed, k) {
        assert k > 0;
        SmallerAtTail(a, b, signed, k - 1);
      }
    } else {
      assert !(a < b);
      assert a[..0] == b[..0];
      assert SmallerAt(a, b, signed, 0) <==> Smaller(a[0], b[0], signed);
      forall k: nat | 0 < k
        ensures !SmallerAt(a, b, signed, k)
      {
        if k < |a| && k < |b| { assert a[..k][0] == a[0] && b[..k][0] == b[0]; }
      }
    }
  }

  /** The same on the bytes themselves, for both kinds of `char`. */
  lemma LexOnBytes(a: seq<byte>, b: seq<byte>)
    ensures Lex(a, b, false) == -1
       <==> a < b || exists k: nat :: k < |a| && k < |b| && a[..k] == b[..k] && a[k] < b[k]
    ensures Lex(a, b, true) == -1
       <==> a < b || exists k: nat ::
                       && k < |a| && k < |b| && a[..k] == b[..k]
                       && ((a[k] >= 128 && b[k] < 128) || ((a[k] >= 128 <==> b[k] >= 128) && a[k] < b[k]))
  {
    hide Lex;
    LexMeaning(a, b, false);
    LexMeaning(a, b, true);
    forall k: nat | k < |a| && k < |b| && a[..k] == b[..k]
      ensures SmallerAt(a, b, false, k) <==> a[k] < b[k]
      ensures SmallerAt(a, b, true, k) <==>
                (a[k] >= 128 && b[k] < 128) || ((a[k] >= 128 <==> b[k] >= 128) && a[k] < b[k])
    {
    }
  }

  /** -1, 0 or 1: the first buffer is smaller, they are equal, or the second one is smaller. */
  method Compare(a: array<byte>, b: array<byte>, signed: bool) returns (r: int)
    ensures r == Lex(a[..], b[..], signed)
    ensures r == 0 <==> a[..] == b[..]
    ensures r == -1 <==> a[..] < b[..] || exists k: nat :: SmallerAt(a[..], b[..], signed, k)
    ensures r == 1 <==> b[..] < a[..] || exists k: nat :: SmallerAt(b[..], a[..], signed, k)
  {
    r := CompareBytes(a, b, signed);
    LexZeroIsEqual(a[..], b[..], signed);
    LexAntisymmetric(a[..], b[..], signed);
    LexMeaning(a[..], b[..], signed);
    LexMeaning(b[..], a[..], signed);
  }

  method CompareBytes(a: array<byte>, b: array<byte>, signed: bool) returns (r: int)
    ensures r == Lex(a[..], b[..], signed)
  {
    var i, j := 0, 0;
    assert a[0..] == a[..] && b[0..] == b[..];
    while i < a.Length && j < b.Length
      invariant 0 <= i == j && i <= a.Length && j <= b.Length
      invariant Lex(a[..], b[..], signed) == Lex(a[i..], b[j..], signed)
    {
      if CharValue(a[i], signed) < CharValue(b[j], signed) {
        return -1;
      } else if CharValue(a[i], signed) > CharValue(b[j], signed) {
        return 1;
      }
      assert a[i..][1..] == a[i + 1..] && b[j..][1..] == b[j + 1..];
      i := i + 1;
      j := j + 1;
    }
    if j < b.Length {
      return -1;
    } else if i < a.Length {
      return 1;
    }
    return 0;
  }

  // -------------------------------------------------------------------- copy

  function BoundRange(index: int, low: int, upper: int): (r: int)
    requires low <= upper
    ensures low <= r <= upper
    ensures low <= index <= upper ==> r == index
    ensures index < low ==> r == low
    ensures index > upper ==> r == upper
  {
    if index < low then low else if index > upper then upper else index
  }

  function Min(a: int, b: int): int {
    if a < b then a else b
  }

  function Splice(s: seq<byte>, at: nat, part: seq<byte>): seq<byte>
    requires at + |part| <= |s|
  {
    s[..at] + part + s[at + |part|..]
  }

  /** `k` reduced to the first period of length `m`. */
  function Wrap(k: nat, m: nat): (r: nat)
    requires m > 0
    ensures r <= k && r < m
    ensures k < m ==> r == k
  {
    if k < m then k else Wrap(k - m, m)
  }

  /**
   What a forward copy inside one buffer leaves behind: a faithful copy when the
   destination is not ahead of the source, otherwise the bytes in between repeated.
   */
  function SelfCopied(s: seq<byte>, src: nat, dst: nat, n: nat): (r: seq<byte>)
    requires src + n <= |s| && dst + n <= |s|
    ensures |r| == n
  {
    seq(n, k requires 0 <= k < n => if dst <= src then s[src + k] else s[src + Wrap(k, dst - src)])
  }

  /**
   Copying inside one buffer is safe for every content if and only if the destination
   does not start inside the source.
   */
  lemma OverlapHazard(len: nat, src: nat, dst: nat, n: nat)
    requires src + n <= len && dst + n <= len
    ensures (forall s: seq<byte> | |s| == len :: SelfCopied(s, src, dst, n) == s[src..src + n])
       <==> dst <= src || dst >= src + n
  {
    if src < dst < src + n {
      var d := dst - src;
      var s: seq<byte> := seq(len, i => if i == dst then 1 else 0);
      assert Wrap(d, d) == 0;
      assert SelfCopied(s, src, dst, n)[d] == s[src] == 0;
      assert s[src..src + n][d] == s[dst] == 1;
    }
  }

  lemma SpliceNone(s: seq<byte>, at: nat)
    requires at <= |s|
    ensures Splice(s, at, []) == s
  {
  }

  lemma SpliceNext(s: seq<byte>, at: nat, part: seq<byte>, k: nat)
    requires at + |part| <= |s| && k < |part|
    ensures Splice(s, at, part[..k])[at + k := part[k]] == Splice(s, at, part[..k + 1])
  {
  }

  /** The byte that the loop reads next, although the loop may have written it before. */
  lemma SelfCopiedNext(s: seq<byte>, src: nat, dst: nat, n: nat, k: nat)
    requires src + n <= |s| && dst + n <= |s| && k < n
    ensures Splice(s, dst, SelfCopied(s, src, dst, n)[..k])[src + k] == SelfCopied(s, src, dst, n)[k]
  {
    var part := SelfCopied(s, src, dst, n);
    if src < dst <= src + k {
      assert Splice(s, dst, part[..k])[src + k] == part[k - (dst - src)];
    }
  }

  /** Copies `src[from..to]` to `dst` from index `at`, first byte first, as far as `dst` reaches. */
  method CopyInternal(dst: array<byte>, src: array<byte>, from: nat, to: nat, at: nat) returns (copied: nat)
    requires from <= to <= src.Length && at <= dst.Length
    modifies dst
    ensures copied == Min(to - from, dst.Length - at)
    ensures src != dst ==> dst[..] == Splice(old(dst[..]), at, src[from..from + copied])
    ensures src == dst ==> dst[..] == Splice(old(dst[..]), at, SelfCopied(old(dst[..]), from, at, copied))
  {
    hide SelfCopied, Splice;
    copied := 0;
    ghost var before := dst[..];
    ghost var n := Min(to - from, dst.Length - at);
    ghost var part := if src == dst then SelfCopied(before, from, at, n) else src[from..from + n];
    SpliceNone(before, at);
    var i, j := from, at;
    while i < to && j < dst.Length
      invariant copied <= n && i == from + copied && j == at + copied
      invariant src != dst ==> src[..] == old(src[..])
      invariant dst[..] == Splice(before, at, part[..copied])
    {
      if src == dst {
        SelfCopiedNext(before, from, at, n, copied);
      }
      assert src[i] == src[..][i] == part[copied];
      SpliceNext(before, at, part, copied);
      ghost var now := dst[..];
      dst[j] := src[i];
      assert dst[..] == now[at + copied := part[copied]];
      copied := copied + 1;
      i, j := i + 1, j + 1;
    }
    assert part[..copied] == part;
  }

  /** `buffer.copy(target, targetStart, sourceStart, sourceEnd)` with its defaults and its clamping. */
  method CopyTo(source: array<byte>, target: array<byte>,
                targetStart: Option<int>, sourceStart: Option<int>, sourceEnd: Option<int>)
    returns (r: Result<nat>)
    modifies target
    ensures var t := if targetStart.None? then 0 else targetStart.value;
            var s := if sourceStart.None? then 0 else sourceStart.value;
            var e := if sourceEnd.None? then source.Length else sourceEnd.value;
            if e > s && t < 0 then r == RangeError && target[..] == old(target[..])
            else
              var t', s', e' := BoundRange(t, 0, target.Length), BoundRange(s, 0, source.Length),
                                BoundRange(e, 0, source.Length);
              var n := if e' < s' then 0 else Min(e' - s', target.Length - t');
              && r == Ok(n)
              && (source != target ==> target[..] == Splice(old(target[..]), t', source[s'..s' + n]))
              && (source == target ==>
                    target[..] == Splice(old(target[..]), t', SelfCopied(old(target[..]), s', t', n)))
  {
    var t := if targetStart.None? then 0 else targetStart.value;
    var s := if sourceStart.None? then 0 else sourceStart.value;
    var e := if sourceEnd.None? then source.Length else sourceEnd.value;
    if e > s && t < 0 {
      return RangeError;
    }
    t := BoundRange(t, 0, target.Length);
    s := BoundRange(s, 0, source.Length);
    e := BoundRange(e, 0, source.Length);
    if e < s {
      e := s;
    }
    var copied := CopyInternal(target, source, s, e, t);
    return Ok(copied);
  }

  // ------------------------------------------------------------------- slice

  /** The interval that `slice` cuts out; negative indices count from the end. */
  function SliceFrom(len: nat, start: int): (r: nat)
    ensures r <= len
  {
    BoundRange(if start < 0 then start + len else start, 0, len)
  }

  function SliceTo(len: nat, start: int, end: int): (r: nat)
    ensures SliceFrom(len, start) <= r <= len
  {
    var e := SliceFrom(len, end);
    if e < SliceFrom(len, start) then SliceFrom(len, start) else e
  }

  function Sliced(s: seq<byte>, start: int, end: int): seq<byte> {
    s[SliceFrom(|s|, start)..SliceTo(|s|, start, end)]
  }

  /** Inside the buffer a slice is the plain interval. */
  lemma SlicedInRange(s: seq<byte>, a: nat, b: nat)
    requires a <= b <= |s|
    ensures Sliced(s, a, b) == s[a..b]
  {
  }

  /** Outside it is what there is of that interval; an index too far to the left counts as 0. */
  lemma SlicedOutOfRange(s: seq<byte>, a: nat, b: int)
    ensures a <= |s| <= b ==> Sliced(s, a, b) == s[a..]
    ensures a > |s| || 0 <= b < a ==> Sliced(s, a, b) == []
    ensures a > |s| ==> Sliced(s, 0 - a, b) == Sliced(s, 0, b)
    ensures b < -|s| ==> Sliced(s, a, b) == []
  {
  }

  lemma NestedIntervals(s: seq<byte>, a: nat, b: nat, c: nat, d: nat)
    requires a <= b <= |s| && c <= d <= b - a
    ensures s[a..b][c..d] == s[a + c..a + d]
  {
    forall k | 0 <= k < d - c
      ensures s[a..b][c..d][k] == s[a + c..a + d][k]
    {
      assert s[a..b][c + k] == s[a + c + k];
    }
  }

  /** Slices compose, adjacent ones join, and index -k means |s| - k. */
  lemma SliceLaws(s: seq<byte>, a: nat, b: nat, c: nat, d: nat)
    requires a <= b <= |s| && c <= d <= b - a
    ensures Sliced(Sliced(s, a, b), c, d) == Sliced(s, a + c, a + d)
    ensures Sliced(s, a, b) + Sliced(s, b, |s|) == s[a..]
    ensures 0 < a ==> Sliced(s, 0 - a, |s|) == s[|s| - a..]
    ensures a < b < |s| ==> Sliced(s, a, b - |s|) == s[a..b]
  {
    SlicedInRange(s, a, b);
    SlicedInRange(s[a..b], c, d);
    SlicedInRange(s, a + c, a + d);
    SlicedInRange(s, b, |s|);
    NestedIntervals(s, a, b, c, d);
    assert s[a..b] + s[b..|s|] == s[a..];
  }

  lemma SpliceWhole(s: seq<byte>, part: seq<byte>)
    requires |part| == |s|
    ensures Splice(s, 0, part) == part
  {
  }

  method Cut(buffer: array<byte>, from: nat, to: nat) returns (r: array<byte>)
    requires from <= to <= buffer.Length
    ensures fresh(r) && r[..] == buffer[from..to]
  {
    hide Splice;
    r := new byte[to - from];
    ghost var empty := r[..];
    var copied := CopyInternal(r, buffer, from, to, 0);
    SpliceWhole(empty, buffer[from..to]);
  }

  method Slice(buffer: array<byte>, start: Option<int>, end: Option<int>) returns (r: array<byte>)
    ensures fresh(r)
    ensures r[..] == Sliced(buffer[..], if start.None? then 0 else start.value,
                            if end.None? then buffer.Length else end.value)
  {
    var from := if start.None? then 0 else start.value;
    var to := if end.None? then buffer.Length else end.value;
    if from < 0 {
      from := from + buffer.Length;
    }
    from := BoundRange(from, 0, buffer.Length);
    if to < 0 {
      to := to + buffer.Length;
    }
    to := BoundRange(to, 0, buffer.Length);
    if to < from {
      to := from;
    }
    r := Cut(buffer, from, to);
  }

  // ------------------------------------------------------------------ concat

  ghost function Contents(list: seq<array<byte>>): seq<seq<byte>>
    reads list
  {
    if list == [] then [] else Contents(list[..|list| - 1]) + [list[|list| - 1][..]]
  }

  lemma {:induction false} LaterLonger(list: seq<array<byte>>, k: nat)
    requires k <= |list|
    ensures |Flatten(Contents(list[..k]))| <= |Flatten(Contents(list))|
    decreases |list|
  {
    if k < |list| {
      var front := list[..|list| - 1];
      assert front[..k] == list[..k];
      LaterLonger(front, k);
      FlattenSnoc(Contents(front), list[|list| - 1][..]);
    } else {
      assert list[..k] == list;
    }
  }

  lemma FlattenNext(list: seq<array<byte>>, i: nat)
    requires i < |list|
    ensures Flatten(Contents(list[..i + 1])) == Flatten(Contents(list[..i])) + list[i][..]
  {
    assert list[..i + 1][..i] == list[..i];
    FlattenSnoc(Contents(list[..i]), list[i][..]);
  }

  /** `Buffer.concat`: measure, allocate, then copy piece after piece. */
  method Concat(list: seq<array<byte>>) returns (buffer: array<byte>)
    ensures fresh(buffer) && buffer[..] == Flatten(Contents(list))
  {
    hide Flatten, Contents;
    var length := 0;
    FlattenEmpty();
    assert list[..0] == [];
    for i := 0 to |list|
      invariant length == |Flatten(Contents(list[..i]))|
    {
      FlattenNext(list, i);
      length := length + list[i].Length;
    }
    assert list[..|list|] == list;
    buffer := new byte[length];
    var pos := 0;
    for i := 0 to |list|
      invariant pos == |Flatten(Contents(list[..i]))| <= buffer.Length
      invariant fresh(buffer)
      invariant buffer[..pos] == Flatten(Contents(list[..i]))
    {
      LaterLonger(list, i + 1);
      FlattenNext(list, i);
      CopyPiece(list[i], buffer, pos);
      pos := pos + list[i].Length;
    }
  }

  method CopyPiece(piece: array<byte>, buffer: array<byte>, pos: nat)
    requires piece != buffer && pos + piece.Length <= buffer.Length
    modifies buffer
    ensures buffer[..pos + piece.Length] == old(buffer[..pos]) + piece[..]
  {
    var r := CopyTo(piece, buffer, Some(pos), None, None);
    assert piece[0..piece.Length] == piece[..];
  }

  lemma FlattenEmpty()
    ensures Flatten<byte>(Contents([])) == []
  {
  }

  // -------------------------------------------------------------------- text

  function Strnlen(s: seq<byte>): (n: nat)
    ensures n <= |s| && NUL !in s[..n]
    ensures n < |s| ==> s[n] == NUL
  {
    if s == [] || s[0] == NUL then 0
    else
      assert forall k: nat :: k < |s[1..]| ==> s[..k + 1] == [s[0]] + s[1..][..k];
      assert s == [s[0]] + s[1..];
      1 + Strnlen(s[1..])
  }

  /** `new Buffer(string)`. */
  method FromString(s: seq<byte>) returns (buffer: array<byte>)
    ensures fresh(buffer) && buffer[..] == s
  {
    buffer := new byte[|s|];
    var r := Write(buffer, s, None, None);
    assert buffer[..] == s;
  }

  /** `buffer.write(string, offset, length)`. */
  method Write(buffer: array<byte>, s: seq<byte>, offset: Option<int>, length: Option<int>) returns (r: Result<nat>)
    modifies buffer
    ensures var o := if offset.None? then 0 else offset.value;
            if s != [] && (o < 0 || o >= buffer.Length) then r == RangeError && buffer[..] == old(buffer[..])
            else
              var l := if length.None? then buffer.Length - o else length.value;
              var o' := BoundRange(o, 0, buffer.Length);
              var n := Min(BoundRange(BoundRange(l, 0, buffer.Length - o'), 0, |s|), buffer.Length - o');
              r == Ok(n) && buffer[..] == Splice(old(buffer[..]), o', s[..n])
  {
    hide Splice;
    var o := if offset.None? then 0 else offset.value;
    if |s| > 0 && (o < 0 || o >= buffer.Length) {
      return RangeError;
    }
    var l := if length.None? then buffer.Length - o else length.value;
    o := BoundRange(o, 0, buffer.Length);
    l := BoundRange(l, 0, buffer.Length - o);
    l := BoundRange(l, 0, |s|);
    var copied := WriteBytes(buffer, s, o, l);
    return Ok(copied);
  }

  method WriteBytes(buffer: array<byte>, s: seq<byte>, o: nat, l: nat) returns (copied: nat)
    requires o <= buffer.Length && l <= |s|
    modifies buffer
    ensures copied == Min(l, buffer.Length - o)
    ensures buffer[..] == Splice(old(buffer[..]), o, s[..copied])
  {
    hide Splice;
    ghost var before := buffer[..];
    var src := new byte[|s|];
    forall i | 0 <= i < |s| { src[i] := s[i]; }
    assert buffer[..] == before;
    copied := CopyInternal(buffer, src, 0, l, o);
    assert src[0..copied] == s[..copied];
  }

  /** `buffer.toString(start, end)` stops at the first NUL. */
  method ToString(buffer: array<byte>, start: Option<int>, end: Option<int>) returns (s: seq<byte>)
    ensures var from := BoundRange(if start.None? then 0 else start.value, 0, buffer.Length);
            var to := BoundRange(if end.None? then buffer.Length else end.value, 0, buffer.Length);
            var all := if to < from then [] else buffer[from..to];
            s == all[..Strnlen(all)]
  {
    var from := BoundRange(if start.None? then 0 else start.value, 0, buffer.Length);
    var to := BoundRange(if end.None? then buffer.Length else end.value, 0, buffer.Length);
    if to < from {
      to := from;
    }
    var all := buffer[from..to];
    s := all[..Strnlen(all)];
  }

  /** Text survives a buffer if and only if it holds no NUL. */
  method TextRoundTrip(s: seq<byte>) returns (t: seq<byte>)
    ensures t == s <==> NUL !in s
    ensures t <= s
  {
    var buffer := FromString(s);
    t := ToString(buffer, None, None);
    assert buffer[0..buffer.Length] == s;
    var n := Strnlen(s);
    if n == |s| {
      assert s[..n] == s;
    }
  }
}
