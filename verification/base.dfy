/**
 Basic vocabulary shared by the whole model: bytes, the Result type the
 library's functions return, and flattening of byte chunks.
 */
module Base {

  /** One octet, as `u8` in the library. */
  newtype byte = x: int | 0 <= x < 256

  /** The library's `Result<T, E>`: a value or an error. */
  datatype Result<+T, +E> = Ok(value: T) | Err(error: E)

  /** The outcome of a loop run for a bounded number of black-box calls: the
      value it returned, or the bound was reached first. */
  datatype Fueled<+T> = Finished(result: T) | OutOfFuel

  /** An optional value. */
  datatype Option<+T> = None | Some(value: T)

  /** The last element of a non-empty sequence. */
  function Last<T>(s: seq<T>): (x: T)
    requires |s| > 0
  {
    s[|s| - 1]
  }

  /** `u` is a suffix of `s`: what is left of `s` after dropping a prefix. */
  predicate IsSuffix(u: seq<byte>, s: seq<byte>)
  {
    |u| <= |s| && u == s[|s| - |u|..]
  }

  /** The second part of a split is a suffix of the whole. */
  lemma SuffixOfSplit(s: seq<byte>, t: seq<byte>, u: seq<byte>)
    requires s == t + u
    ensures IsSuffix(u, s)
  {
    assert s[|t|..] == u;
  }

  /** A non-empty sequence followed by more is its head followed by the rest. */
  lemma ConsAppend<T>(s: seq<T>, t: seq<T>)
    requires |s| > 0
    ensures s + t == [s[0]] + (s[1..] + t)
    ensures (s + t)[1..] == s[1..] + t
  {
  }

  /** Dropping the head keeps the last element of a longer sequence. */
  lemma LastTail<T>(s: seq<T>)
    requires |s| > 1
    ensures Last(s[1..]) == Last(s)
  {
  }

  /** Appending the same bytes to both sides of an equation keeps it. */
  lemma AppendBoth(a: seq<byte>, p: seq<byte>, c: seq<byte>, s: seq<byte>, b: seq<byte>)
    requires a + p == c + s
    ensures a + (p + b) == c + (s + b)
  {
    assert a + (p + b) == (a + p) + b;
    assert c + (s + b) == (c + s) + b;
  }

  /** Bytes appended on both sides of a balance keep it: if `a + p` equals
      `c + s`, then appending `b` to `p` on one side and to `s` on the other,
      and splitting `c + (s + b)` again as `t + u`, still balances. */
  lemma Carry(a: seq<byte>, p: seq<byte>, c: seq<byte>, s: seq<byte>, b: seq<byte>,
              p': seq<byte>, i: seq<byte>, t: seq<byte>, u: seq<byte>)
    requires a + p == c + s
    requires p' == p + b && i == s + b && t + u == c + i
    ensures a + p' == t + u
  {
    AppendBoth(a, p, c, s, b);
  }

  /** The last element of a concatenation with a non-empty tail is the
      tail's last. */
  lemma LastAppend<T>(s: seq<T>, t: seq<T>)
    requires |t| > 0
    ensures Last(s + t) == Last(t)
  {
  }

  /** A front followed by two parts that make up `d` is the front followed by `d`. */
  lemma Regroup(a: seq<byte>, b: seq<byte>, c: seq<byte>, d: seq<byte>)
    requires b + c == d
    ensures (a + b) + c == a + d
  {
  }

  /** Two balances chain: what is left over on the right of the first is
      where the second starts. */
  lemma Chain(a: seq<byte>, p: seq<byte>, c: seq<byte>, s: seq<byte>, q: seq<byte>, d: seq<byte>, t: seq<byte>)
    requires a + p == c + s && s + q == d + t
    ensures a + (p + q) == (c + d) + t
  {
    calc {
      a + (p + q);
      (a + p) + q;
      (c + s) + q;
      c + (s + q);
      c + (d + t);
      (c + d) + t;
    }
  }

  /** A prefix followed by the next bytes is a longer prefix. */
  lemma PrefixSplit(s: seq<byte>, i: nat, j: nat)
    requires i <= j <= |s|
    ensures s[..i] + s[i..][..j - i] == s[..j]
  {
    assert s[i..][..j - i] == s[i..j];
  }

  /** Concatenation of a sequence of byte chunks, in order. */
  function Flatten(chunks: seq<seq<byte>>): (r: seq<byte>)
  {
    if |chunks| == 0 then [] else Flatten(chunks[..|chunks| - 1]) + chunks[|chunks| - 1]
  }

  /** Appending one chunk appends its bytes to the flattening. */
  lemma FlattenSnoc(chunks: seq<seq<byte>>, c: seq<byte>)
    ensures Flatten(chunks + [c]) == Flatten(chunks) + c
  {
    assert (chunks + [c])[..|chunks|] == chunks;
  }

}
