/** Index arithmetic of a circular array of `c` cells and the sequence views built on it. */
module Circular {

  /** One wrap-around step: an offset that ran past the end of the array by less than a full
      turn comes back to the front. This is how the buffer resets `head`, `tail` and its scan
      pointers (compare with the end, subtract or reset). */
  function Wrap(x: nat, c: nat): (r: nat)
    requires x < 2 * c
    ensures r < c
  {
    if x < c then x else x - c
  }

  /** `Wrap` is the remainder modulo `c` on the range where it is used. */
  lemma WrapIsMod(x: nat, c: nat)
    requires x < 2 * c
    ensures Wrap(x, c) == x % c
  {
  }

  /** The `n` cells of `s` that start at `start` and run on circularly. */
  function Window<T>(s: seq<T>, start: nat, n: nat): (w: seq<T>)
    requires start < |s| && n <= |s|
  {
    seq(n, i requires 0 <= i < n => s[Wrap(start + i, |s|)])
  }

  /** Offset of cell `j` from `start`, measured forward around the circle. */
  function Offset(j: nat, start: nat, c: nat): (d: nat)
    requires j < c && start < c
  {
    if start <= j then j - start else j + c - start
  }

  /** `s` with `input` laid down from `start` onwards, circularly: the single copy a write
      amounts to. */
  function CircularWrite<T>(s: seq<T>, start: nat, input: seq<T>): (r: seq<T>)
    requires start < |s| && |input| <= |s|
  {
    seq(|s|, j requires 0 <= j < |s| =>
      if Offset(j, start, |s|) < |input| then input[Offset(j, start, |s|)] else s[j])
  }

  /** The block written lands at `Wrap(start + i)` for each of its positions `i`, and no other
      cell changes. */
  lemma CircularWriteAt<T>(s: seq<T>, start: nat, input: seq<T>)
    requires start < |s| && |input| <= |s|
    ensures |CircularWrite(s, start, input)| == |s|
    ensures forall i :: 0 <= i < |input| ==> CircularWrite(s, start, input)[Wrap(start + i, |s|)] == input[i]
    ensures forall j :: 0 <= j < |s| && Offset(j, start, |s|) >= |input| ==> CircularWrite(s, start, input)[j] == s[j]
  {
    var r := CircularWrite(s, start, input);
    forall i | 0 <= i < |input|
      ensures r[Wrap(start + i, |s|)] == input[i]
    {
      assert Offset(Wrap(start + i, |s|), start, |s|) == i;
    }
  }

  /** Lengthening a window by one cell appends the cell just after its last one. */
  lemma WindowSnoc<T>(s: seq<T>, start: nat, n: nat)
    requires start < |s| && n < |s|
    ensures start + n < 2 * |s|
    ensures Window(s, start, n + 1) == Window(s, start, n) + [s[Wrap(start + n, |s|)]]
  {
    var lhs := Window(s, start, n + 1);
    var rhs := Window(s, start, n) + [s[Wrap(start + n, |s|)]];
    forall i | 0 <= i < n + 1
      ensures lhs[i] == rhs[i]
    {
    }
  }

  /** Writing `input` at the tail of a window (the cell right after its last one) extends the
      window by exactly `input`, as long as the window and the block fit in the array together. */
  lemma WindowAppend<T>(s: seq<T>, head: nat, len: nat, input: seq<T>)
    requires head < |s| && len + |input| <= |s|
    ensures Window(CircularWrite(s, Wrap(head + len, |s|), input), head, len + |input|)
         == Window(s, head, len) + input
  {
    var c := |s|;
    var tail := Wrap(head + len, c);
    var r := CircularWrite(s, tail, input);
    var lhs := Window(r, head, len + |input|);
    var rhs := Window(s, head, len) + input;
    forall i | 0 <= i < len + |input|
      ensures lhs[i] == rhs[i]
    {
      var j := Wrap(head + i, c);
      if i < len {
        assert Offset(j, tail, c) == c - len + i;
      } else {
        assert Offset(j, tail, c) == i - len;
      }
    }
  }

  /** Dropping the first `k` cells of a window leaves the window that starts `k` cells later. */
  lemma WindowDrop<T>(s: seq<T>, head: nat, len: nat, k: nat)
    requires head < |s| && k <= len <= |s|
    ensures Wrap(head + k, |s|) < |s|
    ensures Window(s, head, len)[k..] == Window(s, Wrap(head + k, |s|), len - k)
  {
    var c := |s|;
    var lhs := Window(s, head, len)[k..];
    var rhs := Window(s, Wrap(head + k, c), len - k);
    forall i | 0 <= i < len - k
      ensures lhs[i] == rhs[i]
    {
      assert Wrap(Wrap(head + k, c) + i, c) == Wrap(head + k + i, c);
    }
  }

  /** Any `m` consecutive cells of a window, starting `k` cells in, form the window of length
      `m` at the wrapped position. */
  lemma WindowSlice<T>(s: seq<T>, head: nat, len: nat, k: nat, m: nat)
    requires head < |s| && len <= |s| && k + m <= len
    ensures Wrap(head + k, |s|) < |s|
    ensures Window(s, head, len)[k..k + m] == Window(s, Wrap(head + k, |s|), m)
  {
    WindowDrop(s, head, len, k);
    assert Window(s, head, len)[k..k + m] == Window(s, head, len)[k..][..m];
  }

  /** Laying down a single value is an update of one cell. */
  lemma CircularWriteOne<T>(s: seq<T>, start: nat, x: T)
    requires start < |s|
    ensures CircularWrite(s, start, [x]) == s[start := x]
  {
    var r := CircularWrite(s, start, [x]);
    forall j | 0 <= j < |s|
      ensures r[j] == s[start := x][j]
    {
      if j != start {
        assert Offset(j, start, |s|) >= 1;
      }
    }
  }
}
