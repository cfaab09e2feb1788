/** Value types shared by the codecs, the argument parser and the file store. */
module Common {

  /** One byte of a file or buffer, as an unsigned value. */
  type Byte = b: int | 0 <= b < 256

  /** An optional value: `None` stands for a NULL pointer or a -1 return. */
  datatype Option<+T> = None | Some(value: T)

  /** `n` copies of `b`. */
  function Repeat(b: Byte, n: nat): (r: seq<Byte>)
    ensures |r| == n
    ensures forall k :: 0 <= k < n ==> r[k] == b
  {
    seq(n, _ => b)
  }

  /** Concatenation is associative. */
  lemma ConcatAssoc<T>(a: seq<T>, b: seq<T>, c: seq<T>)
    ensures (a + b) + c == a + (b + c)
  {
  }

  /** The step of a loop that builds `whole` left to right: when `done + todo`
      is `whole` and `todo` starts with `piece`, moving `piece` over keeps it. */
  lemma ExtendPrefix<T>(done: seq<T>, piece: seq<T>, rest: seq<T>, todo: seq<T>, whole: seq<T>)
    requires done + todo == whole && todo == piece + rest
    ensures (done + piece) + rest == whole
  {
    ConcatAssoc(done, piece, rest);
  }

  /** A sequence is its prefix followed by the rest. */
  lemma SplitAt<T>(s: seq<T>, n: nat)
    requires n <= |s|
    ensures s[..n] + s[n..] == s
  {
  }

  /** Nothing is left after the end of a sequence. */
  lemma EmptyTail<T>(s: seq<T>)
    ensures s[|s|..] == []
  {
  }

  /** Appending nothing changes nothing. */
  lemma AppendNothing<T>(s: seq<T>)
    ensures s + [] == s
  {
  }

  /** A non-empty sequence is its head followed by its tail. */
  lemma HeadTail<T>(s: seq<T>)
    requires |s| > 0
    ensures [s[0]] + s[1..] == s
  {
  }
  /** Membership in a non-empty sequence splits at its head. */
  lemma InHeadTail<T>(x: T, s: seq<T>)
    requires |s| > 0
    ensures x in s <==> x == s[0] || x in s[1..]
  {
    HeadTail(s);
  }

}
