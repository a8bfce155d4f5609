/** Cutting a byte stream into frames `[T][L][L bytes]`. */
module Framing {
  import opened ChatTypes

  /** The frame length a header announces. */
  function FrameLen(s: seq<byte>): (n: nat)
    requires |s| >= 2
    ensures 2 <= n <= CHAT_MAX_MSG_SIZE
  {
    2 + s[1] as nat
  }

  predicate IsFrame(f: seq<byte>) {
    |f| >= 2 && |f| == FrameLen(f)
  }

  /** The stream starts with a complete frame. */
  predicate HasFrame(s: seq<byte>) {
    |s| >= 2 && |s| >= FrameLen(s)
  }

  /** The frames of a stream and the bytes left over. */
  function Parse(s: seq<byte>): (seq<seq<byte>>, seq<byte>) {
    if HasFrame(s) then
      var n := FrameLen(s);
      var (frames, rest) := Parse(s[n..]);
      ([s[..n]] + frames, rest)
    else ([], s)
  }

  function Flatten(chunks: seq<seq<byte>>): seq<byte> {
    if chunks == [] then [] else chunks[0] + Flatten(chunks[1..])
  }

  /** A maximal cut of `s`: whole frames, in order, then less than a frame. */
  ghost predicate IsCut(s: seq<byte>, frames: seq<seq<byte>>, rest: seq<byte>) {
    && (forall i :: 0 <= i < |frames| ==> IsFrame(frames[i]))
    && Flatten(frames) + rest == s
    && !HasFrame(rest)
  }

  /** Parsing loses no byte, adds none, and stops only when no frame is left. */
  lemma {:induction false} ParseCuts(s: seq<byte>)
    ensures IsCut(s, Parse(s).0, Parse(s).1)
  {
    if HasFrame(s) {
      var n := FrameLen(s);
      ParseCuts(s[n..]);
      var frames := Parse(s).0;
      assert frames[1..] == Parse(s[n..]).0;
      calc {
        Flatten(frames) + Parse(s).1;
        s[..n] + Flatten(Parse(s[n..]).0) + Parse(s[n..]).1;
        s[..n] + (Flatten(Parse(s[n..]).0) + Parse(s[n..]).1);
        s[..n] + s[n..];
        s;
      }
    }
  }

  /** There is only one maximal cut, so `Parse` is the cut. */
  lemma {:induction false} CutUnique(s: seq<byte>, frames: seq<seq<byte>>, rest: seq<byte>)
    requires IsCut(s, frames, rest)
    ensures (frames, rest) == Parse(s)
    decreases |frames|
  {
    if frames == [] {
      assert s == rest;
    } else {
      var f, tail := frames[0], frames[1..];
      assert s == f + (Flatten(tail) + rest);
      assert s[..|f|] == f && s[|f|..] == Flatten(tail) + rest;
      assert s[0] == f[0] && s[1] == f[1];
      CutUnique(s[|f|..], tail, rest);
      assert frames == [f] + tail;
    }
  }

  lemma {:induction false} FlattenAppend(a: seq<seq<byte>>, b: seq<seq<byte>>)
    ensures Flatten(a + b) == Flatten(a) + Flatten(b)
  {
    if a == [] {
      assert a + b == b;
    } else {
      FlattenAppend(a[1..], b);
      assert (a + b)[1..] == a[1..] + b;
    }
  }

  lemma CutAppend(a: seq<byte>, fa: seq<seq<byte>>, ra: seq<byte>, b: seq<byte>, fb: seq<seq<byte>>, rb: seq<byte>)
    requires IsCut(a, fa, ra) && IsCut(ra + b, fb, rb)
    ensures IsCut(a + b, fa + fb, rb)
  {
    FlattenAppend(fa, fb);
    calc {
      Flatten(fa + fb) + rb;
      Flatten(fa) + (Flatten(fb) + rb);
      Flatten(fa) + (ra + b);
      (Flatten(fa) + ra) + b;
      a + b;
    }
  }

  /** What arrives later only extends the cut of what arrived before. */
  lemma ParseAppend(a: seq<byte>, b: seq<byte>)
    ensures Parse(a + b) == (Parse(a).0 + Parse(Parse(a).1 + b).0, Parse(Parse(a).1 + b).1)
  {
    ParseCuts(a);
    ParseCuts(Parse(a).1 + b);
    CutAppend(a, Parse(a).0, Parse(a).1, b, Parse(Parse(a).1 + b).0, Parse(Parse(a).1 + b).1);
    CutUnique(a + b, Parse(a).0 + Parse(Parse(a).1 + b).0, Parse(Parse(a).1 + b).1);
  }

  /** A concatenation of whole frames parses back into those frames. */
  lemma ParseOfFrames(frames: seq<seq<byte>>)
    requires forall i :: 0 <= i < |frames| ==> IsFrame(frames[i])
    ensures Parse(Flatten(frames)) == (frames, [])
  {
    assert Flatten(frames) + [] == Flatten(frames);
    CutUnique(Flatten(frames), frames, []);
  }

  /** Receiving chunk by chunk, cutting as far as possible after each. */
  function Feed(residue: seq<byte>, chunks: seq<seq<byte>>): (seq<seq<byte>>, seq<byte>)
    decreases |chunks|
  {
    if chunks == [] then ([], residue)
    else
      var (frames, rest) := Parse(residue + chunks[0]);
      var (more, last) := Feed(rest, chunks[1..]);
      (frames + more, last)
  }

  lemma {:induction false} FeedCuts(residue: seq<byte>, chunks: seq<seq<byte>>)
    requires !HasFrame(residue)
    ensures IsCut(residue + Flatten(chunks), Feed(residue, chunks).0, Feed(residue, chunks).1)
    decreases |chunks|
  {
    if chunks == [] {
      assert residue + Flatten(chunks) == residue;
    } else {
      var a := residue + chunks[0];
      var rest := Parse(a).1;
      ParseCuts(a);
      FeedCuts(rest, chunks[1..]);
      var (more, last) := Feed(rest, chunks[1..]);
      CutAppend(a, Parse(a).0, rest, Flatten(chunks[1..]), more, last);
      assert residue + Flatten(chunks) == a + Flatten(chunks[1..]);
    }
  }

  /** Fragmentation independence: however a stream is split into received chunks,
      the frames delivered are the one maximal cut of the whole stream. */
  lemma FragmentationIndependent(residue: seq<byte>, chunks: seq<seq<byte>>)
    requires !HasFrame(residue)
    ensures Feed(residue, chunks) == Parse(residue + Flatten(chunks))
  {
    FeedCuts(residue, chunks);
    CutUnique(residue + Flatten(chunks), Feed(residue, chunks).0, Feed(residue, chunks).1);
  }

  /** The bytes left over never reach the size of the largest frame. */
  lemma ResidueBound(s: seq<byte>)
    requires !HasFrame(s)
    ensures |s| <= CHAT_MAX_MSG_SIZE - 1
  {
  }
}
