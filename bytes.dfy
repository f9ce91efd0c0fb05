/** Bytes, ASCII classes and the small wrappers shared by every module.
    A Go `[]byte` is a `seq<byte>`; a Go `string` used as a map key is the same
    sequence of bytes. */
module Bytes {

  newtype byte = x: int | 0 <= x < 256

  datatype Option<+T> = None | Some(value: T)

  /** The outcome of Go code that can stop with a run-time panic (an index out
      of range, a slice past the end of the data). `Ok` carries the value the
      code returns when it does not panic. */
  datatype Res<+T> = Ok(value: T) | Panic

  predicate IsDigit(b: byte) { '0' as byte <= b <= '9' as byte }

  /** Byte value of an ASCII character; characters above 255 do not occur in
      the names this model uses. */
  function Ch(c: char): byte { (c as int % 256) as byte }

  /** The bytes of an ASCII string literal such as "/Prev". */
  function Str(s: string): (r: seq<byte>)
    ensures |r| == |s|
    ensures forall i :: 0 <= i < |s| ==> r[i] == Ch(s[i])
  {
    if s == [] then [] else [Ch(s[0])] + Str(s[1..])
  }

  function Pow10(n: nat): (p: nat)
    ensures p >= 1
  {
    if n == 0 then 1 else 10 * Pow10(n - 1)
  }

  /** Every slice `s[i..j]` of `s`. A byte string is "taken from" a file when
      it belongs to this set; it is finite, which bounds walks whose visited
      sets hold such strings. */
  function Slices(s: seq<byte>): set<seq<byte>>
  {
    set i, j | 0 <= i <= j <= |s| :: s[i..j]
  }

  lemma SliceIn(s: seq<byte>, i: int, j: int)
    requires 0 <= i <= j <= |s|
    ensures s[i..j] in Slices(s)
  {
  }

  lemma EmptyIn(s: seq<byte>)
    ensures [] in Slices(s)
  {
    assert s[0..0] == [];
  }

  lemma WholeIn(s: seq<byte>)
    ensures s in Slices(s)
  {
    assert s[0..|s|] == s;
  }

  /** A slice of a slice of `t` is a slice of `t`. */
  lemma SlicesTrans(x: seq<byte>, y: seq<byte>, t: seq<byte>)
    requires x in Slices(y) && y in Slices(t)
    ensures x in Slices(t)
  {
    var a, b :| 0 <= a <= b <= |t| && y == t[a..b];
    var i, j :| 0 <= i <= j <= |y| && x == y[i..j];
    SliceOfSlice(t, a, b, i, j);
    SliceIn(t, a + i, a + j);
  }

  lemma SliceOfSlice(t: seq<byte>, a: nat, b: nat, i: nat, j: nat)
    requires a <= b <= |t| && i <= j <= b - a
    ensures t[a..b][i..j] == t[a + i..a + j]
  {
    assert forall k | 0 <= k < j - i :: t[a..b][i..j][k] == t[a + i + k];
  }
}
