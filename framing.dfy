/**
 * Reassembly of frames out of arbitrarily split text, as the stream consumers of
 * public/app.js do it: append each decoded chunk to a buffer, split the buffer on the
 * separator with String.prototype.split, keep the last piece as the new buffer and hand
 * every earlier piece on as a complete frame.
 */
module Framing {
  import opened Text

  /** The two framing conventions: NDJSON lines and Server-Sent Events blocks. */
  datatype Mode = Lines | Events

  function Separator(mode: Mode): (sep: string)
    ensures sep != [] && forall i :: 0 <= i < |sep| ==> sep[i] == '\n'
    ensures |sep| == if mode == Lines then 1 else 2
  {
    match mode
    case Lines => "\n"
    case Events => "\n\n"
  }

  /** `sep` occurs in `s` starting at index `i`. */
  predicate StartsAt(s: string, i: nat, sep: string) {
    i + |sep| <= |s| && s[i..i + |sep|] == sep
  }

  ghost predicate Occurs(s: string, sep: string) {
    exists i: nat :: StartsAt(s, i, sep)
  }

  /** The first occurrence of `sep` in `x + sep` is the one right after `x`. */
  predicate Clean(x: string, sep: string) {
    forall j: nat :: j < |x| ==> !StartsAt(x + sep, j, sep)
  }

  /**
   * `s.split(sep)` for a non-empty string separator: scanning left to right, cut at each
   * occurrence of `sep` and drop the occurrence. The pieces are never fewer than one.
   */
  function Split(s: string, sep: string): (pieces: seq<string>)
    requires sep != []
    ensures |pieces| >= 1
    decreases |s|
  {
    if |s| < |sep| then [s]
    else if s[..|sep|] == sep then [""] + Split(s[|sep|..], sep)
    else Cons(s[0], Split(s[1..], sep))
  }

  /** Put `c` in front of the first piece. */
  function Cons(c: char, pieces: seq<string>): seq<string>
    requires |pieces| >= 1
  {
    [[c] + pieces[0]] + pieces[1..]
  }

  /** The complete frames of `s`: every piece but the last. */
  function Frames(s: string, sep: string): seq<string>
    requires sep != []
  {
    var pieces := Split(s, sep);
    pieces[..|pieces| - 1]
  }

  /** The unterminated remainder of `s`: the last piece, which becomes the new buffer. */
  function Rest(s: string, sep: string): string
    requires sep != []
  {
    var pieces := Split(s, sep);
    pieces[|pieces| - 1]
  }

  /** Each frame followed by the separator, in order. */
  function Terminated(frames: seq<string>, sep: string): string {
    if |frames| == 0 then "" else frames[0] + sep + Terminated(frames[1..], sep)
  }

  lemma {:induction false} TerminatedAppend(a: seq<string>, b: seq<string>, sep: string)
    ensures Terminated(a + b, sep) == Terminated(a, sep) + Terminated(b, sep)
  {
    if a != [] {
      assert (a + b)[0] == a[0] && (a + b)[1..] == a[1..] + b;
      TerminatedAppend(a[1..], b, sep);
      TerminatedFirst(a + b, sep);
      TerminatedFirst(a, sep);
      Reassoc(a[0] + sep, Terminated(a[1..], sep), Terminated(b, sep));
    } else {
      assert a + b == b;
    }
  }

  /** Regrouping a concatenation, stated apart so that proofs can use it without searching for it. */
  lemma Reassoc<T>(x: seq<T>, y: seq<T>, z: seq<T>)
    ensures x + (y + z) == (x + y) + z
  {
  }

  // The four ways `Split` unfolds, stated on frames and remainder.

  lemma SplitShort(s: string, sep: string)
    requires sep != [] && |s| < |sep|
    ensures Frames(s, sep) == [] && Rest(s, sep) == s
  {
  }

  lemma SplitAtSep(s: string, sep: string)
    requires sep != [] && StartsAt(s, 0, sep)
    ensures Frames(s, sep) == [""] + Frames(s[|sep|..], sep)
    ensures Rest(s, sep) == Rest(s[|sep|..], sep)
  {
    assert s[..|sep|] == sep;
    var p := Split(s[|sep|..], sep);
    assert Split(s, sep) == [""] + p;
    assert ([""] + p)[..|p|] == [""] + p[..|p| - 1];
  }

  lemma SplitOnePiece(s: string, sep: string)
    requires sep != [] && s != [] && !StartsAt(s, 0, sep)
    requires Frames(s[1..], sep) == []
    ensures Frames(s, sep) == [] && Rest(s, sep) == [s[0]] + Rest(s[1..], sep)
  {
    if |s| >= |sep| {
      assert s[..|sep|] != sep;
      assert Split(s, sep) == Cons(s[0], Split(s[1..], sep));
    }
  }

  lemma SplitManyPieces(s: string, sep: string)
    requires sep != [] && s != [] && !StartsAt(s, 0, sep)
    requires Frames(s[1..], sep) != []
    ensures Frames(s, sep) == [[s[0]] + Frames(s[1..], sep)[0]] + Frames(s[1..], sep)[1..]
    ensures Rest(s, sep) == Rest(s[1..], sep)
  {
    if |s| >= |sep| {
      assert s[..|sep|] != sep;
      assert Split(s, sep) == Cons(s[0], Split(s[1..], sep));
    } else {
      SplitShort(s[1..], sep);
    }
  }

  // Facts about occurrences in concatenations.

  lemma StartsAtPrefix(u: string, v: string, i: nat, sep: string)
    requires i + |sep| <= |u|
    ensures StartsAt(u + v, i, sep) <==> StartsAt(u, i, sep)
  {
    assert (u + v)[i..i + |sep|] == u[i..i + |sep|];
  }

  lemma StartsAtCons(c: char, u: string, j: nat, sep: string)
    requires j >= 1
    ensures StartsAt([c] + u, j, sep) <==> StartsAt(u, j - 1, sep)
  {
    if j + |sep| <= |u| + 1 {
      assert ([c] + u)[j..j + |sep|] == u[j - 1..j - 1 + |sep|];
    }
  }

  lemma StartsAtTail(s: string, j: nat, sep: string)
    requires s != []
    ensures StartsAt(s, j + 1, sep) <==> StartsAt(s[1..], j, sep)
  {
    StartsAtCons(s[0], s[1..], j + 1, sep);
    assert [s[0]] + s[1..] == s;
  }

  // Algebra of the terminated form.

  lemma AfterSep(s: string, sep: string, f: seq<string>, r: string)
    requires StartsAt(s, 0, sep)
    requires Terminated(f, sep) + r == s[|sep|..]
    ensures Terminated([""] + f, sep) + r == s
  {
    TerminatedEmptyFirst(f, sep);
    SepPrefix(s, sep);
    Reassoc(sep, Terminated(f, sep), r);
  }

  lemma TerminatedEmptyFirst(f: seq<string>, sep: string)
    ensures Terminated([""] + f, sep) == sep + Terminated(f, sep)
  {
    assert ([""] + f)[1..] == f;
  }

  lemma TerminatedFirst(f: seq<string>, sep: string)
    requires |f| >= 1
    ensures Terminated(f, sep) == f[0] + sep + Terminated(f[1..], sep)
  {
  }

  lemma SepPrefix(s: string, sep: string)
    requires StartsAt(s, 0, sep)
    ensures s == sep + s[|sep|..]
  {
    assert s[..|sep|] == sep;
  }

  lemma AfterChar(c: char, f: seq<string>, r: string, t: string, sep: string)
    requires |f| >= 1 && Terminated(f, sep) + r == t
    ensures Terminated([[c] + f[0]] + f[1..], sep) + r == [c] + t
  {
    var g := [[c] + f[0]] + f[1..];
    assert g[1..] == f[1..];
    var a, b := Terminated(g, sep), Terminated(f[1..], sep);
    assert a == ([c] + f[0]) + sep + b;
    assert Terminated(f, sep) == f[0] + sep + b;
    assert a + r == [c] + (f[0] + sep + b + r);
  }

  /** Splitting loses nothing: the frames, each with its separator, then the remainder, give back `s`. */
  lemma {:induction false} Recompose(s: string, sep: string)
    requires sep != []
    ensures Terminated(Frames(s, sep), sep) + Rest(s, sep) == s
    decreases |s|
  {
    var k := |sep|;
    if |s| < k {
      SplitShort(s, sep);
    } else if StartsAt(s, 0, sep) {
      var t := s[k..];
      Recompose(t, sep);
      SplitAtSep(s, sep);
      AfterSep(s, sep, Frames(t, sep), Rest(t, sep));
    } else {
      var t := s[1..];
      Recompose(t, sep);
      assert s == [s[0]] + t;
      if Frames(t, sep) == [] {
        SplitOnePiece(s, sep);
      } else {
        SplitManyPieces(s, sep);
        AfterChar(s[0], Frames(t, sep), Rest(t, sep), t, sep);
      }
    }
  }

  /** `split` yields the frames followed by the remainder. */
  lemma SplitIsFramesAndRest(s: string, sep: string)
    requires sep != []
    ensures Split(s, sep) == Frames(s, sep) + [Rest(s, sep)]
  {
  }

  lemma {:induction false} JoinTerminated(p: seq<string>, sep: string)
    requires |p| >= 1
    ensures Join(p, sep) == Terminated(p[..|p| - 1], sep) + p[|p| - 1]
  {
    if |p| > 1 {
      JoinTerminated(p[1..], sep);
      assert p[1..][..|p| - 2] == p[..|p| - 1][1..];
    }
  }

  /** `parts.join(sep)` inverts `s.split(sep)`. */
  lemma JoinSplit(s: string, sep: string)
    requires sep != []
    ensures Join(Split(s, sep), sep) == s
  {
    Recompose(s, sep);
    SplitIsFramesAndRest(s, sep);
    JoinTerminated(Split(s, sep), sep);
    assert Split(s, sep)[..|Split(s, sep)| - 1] == Frames(s, sep);
  }

  /** The remainder never contains the separator: the buffer holds no complete frame. */
  lemma {:induction false} RestSepFree(s: string, sep: string)
    requires sep != []
    ensures !Occurs(Rest(s, sep), sep)
    decreases |s|
  {
    var k := |sep|;
    if |s| < k {
      SplitShort(s, sep);
    } else if StartsAt(s, 0, sep) {
      RestSepFree(s[k..], sep);
      SplitAtSep(s, sep);
    } else {
      var t := s[1..];
      RestSepFree(t, sep);
      if Frames(t, sep) == [] {
        SplitOnePiece(s, sep);
        Recompose(t, sep);
        assert Rest(s, sep) == s;
        forall i: nat | StartsAt(s, i, sep) ensures false {
          StartsAtTail(s, i - 1, sep);
        }
      } else {
        SplitManyPieces(s, sep);
      }
    }
  }

  /** Every complete frame is clean: the separator after it is its first one. */
  lemma {:induction false} FramesClean(s: string, sep: string)
    requires sep != []
    ensures forall j :: 0 <= j < |Frames(s, sep)| ==> Clean(Frames(s, sep)[j], sep)
    decreases |s|
  {
    var k := |sep|;
    if |s| < k {
      SplitShort(s, sep);
    } else if StartsAt(s, 0, sep) {
      FramesClean(s[k..], sep);
      SplitAtSep(s, sep);
    } else {
      var t := s[1..];
      FramesClean(t, sep);
      var f := Frames(t, sep);
      if f == [] {
        SplitOnePiece(s, sep);
      } else {
        SplitManyPieces(s, sep);
        Recompose(t, sep);
        ConsClean(s, f, Rest(t, sep), sep);
      }
    }
  }

  lemma ConsClean(s: string, f: seq<string>, r: string, sep: string)
    requires sep != [] && s != [] && !StartsAt(s, 0, sep) && |f| >= 1 && Clean(f[0], sep)
    requires Terminated(f, sep) + r == s[1..]
    ensures Clean([s[0]] + f[0], sep)
  {
    var u := f[0] + sep;
    var w := Terminated(f[1..], sep) + r;
    TerminatedFirst(f, sep);
    assert s[1..] == u + w;
    ConsPrefix(s, u, w);
    StartsAtPrefix([s[0]] + u, w, 0, sep);
    CleanCons(s[0], f[0], sep);
  }

  lemma ConsPrefix(s: string, u: string, w: string)
    requires s != [] && s[1..] == u + w
    ensures s == ([s[0]] + u) + w
  {
    assert s == [s[0]] + s[1..];
  }

  /** Putting a character in front of a clean frame keeps it clean unless the separator then starts at once. */
  lemma CleanCons(c: char, x: string, sep: string)
    requires Clean(x, sep) && !StartsAt([c] + (x + sep), 0, sep)
    ensures Clean([c] + x, sep)
  {
    assert ([c] + x) + sep == [c] + (x + sep);
    forall j: nat | j < |[c] + x| ensures !StartsAt(([c] + x) + sep, j, sep) {
      if j > 0 {
        StartsAtCons(c, x + sep, j, sep);
      }
    }
  }

  /** Clean frames do not contain the separator. */
  lemma CleanSepFree(x: string, sep: string)
    requires sep != [] && Clean(x, sep)
    ensures !Occurs(x, sep)
  {
    forall i: nat | StartsAt(x, i, sep) ensures false {
      StartsAtPrefix(x, sep, i, sep);
    }
  }

  /** A string without the separator is no frame, only remainder. */
  lemma {:induction false} SepFreeIsRest(x: string, sep: string)
    requires sep != [] && !Occurs(x, sep)
    ensures Frames(x, sep) == [] && Rest(x, sep) == x
    decreases |x|
  {
    if |x| < |sep| {
      SplitShort(x, sep);
    } else {
      assert !StartsAt(x, 0, sep);
      forall i: nat | StartsAt(x[1..], i, sep) ensures false {
        StartsAtTail(x, i, sep);
      }
      SepFreeIsRest(x[1..], sep);
      SplitOnePiece(x, sep);
      assert [x[0]] + x[1..] == x;
    }
  }

  /** A clean frame followed by its separator is split off as one frame, whatever follows. */
  lemma {:induction false} FramesTerminated(x: string, rest: string, sep: string)
    requires sep != [] && Clean(x, sep)
    ensures Frames(x + sep + rest, sep) == [x] + Frames(rest, sep)
    ensures Rest(x + sep + rest, sep) == Rest(rest, sep)
    decreases |x|
  {
    var k := |sep|;
    var s := x + sep + rest;
    if x == [] {
      assert s == sep + rest && s[..k] == sep && s[k..] == rest;
      SplitAtSep(s, sep);
    } else {
      assert s == (x + sep) + rest;
      StartsAtPrefix(x + sep, rest, 0, sep);
      var y := x[1..];
      assert x + sep == [x[0]] + (y + sep);
      forall j: nat | j < |y| ensures !StartsAt(y + sep, j, sep) {
        StartsAtCons(x[0], y + sep, j + 1, sep);
      }
      FramesTerminated(y, rest, sep);
      assert s[1..] == y + sep + rest;
      SplitManyPieces(s, sep);
      assert [x[0]] + y == x;
    }
  }

  /**
   * Appending text only ever adds frames: the frames of `s + c` are those of `s` followed by
   * the frames of the remainder of `s` extended by `c`, and both end in the same remainder.
   */
  lemma {:induction false} FramesAppend(s: string, c: string, sep: string)
    requires sep != []
    ensures Frames(s + c, sep) == Frames(s, sep) + Frames(Rest(s, sep) + c, sep)
    ensures Rest(s + c, sep) == Rest(Rest(s, sep) + c, sep)
    decreases |s|
  {
    var k := |sep|;
    if |s| < k {
      SplitShort(s, sep);
    } else if StartsAt(s, 0, sep) {
      FramesAppend(s[k..], c, sep);
      FramesAppendAtSep(s, c, sep);
    } else {
      FramesAppend(s[1..], c, sep);
      FramesAppendCons(s, c, sep);
    }
  }

  lemma FramesAppendAtSep(s: string, c: string, sep: string)
    requires sep != [] && StartsAt(s, 0, sep)
    requires Frames(s[|sep|..] + c, sep) == Frames(s[|sep|..], sep) + Frames(Rest(s[|sep|..], sep) + c, sep)
    requires Rest(s[|sep|..] + c, sep) == Rest(Rest(s[|sep|..], sep) + c, sep)
    ensures Frames(s + c, sep) == Frames(s, sep) + Frames(Rest(s, sep) + c, sep)
    ensures Rest(s + c, sep) == Rest(Rest(s, sep) + c, sep)
  {
    var t := s[|sep|..];
    StartsAtPrefix(s, c, 0, sep);
    assert (s + c)[|sep|..] == t + c;
    SplitAtSep(s, sep);
    SplitAtSep(s + c, sep);
    Reassoc([""], Frames(t, sep), Frames(Rest(t, sep) + c, sep));
  }

  lemma FramesAppendCons(s: string, c: string, sep: string)
    requires sep != [] && |s| >= |sep| && !StartsAt(s, 0, sep)
    requires Frames(s[1..] + c, sep) == Frames(s[1..], sep) + Frames(Rest(s[1..], sep) + c, sep)
    requires Rest(s[1..] + c, sep) == Rest(Rest(s[1..], sep) + c, sep)
    ensures Frames(s + c, sep) == Frames(s, sep) + Frames(Rest(s, sep) + c, sep)
    ensures Rest(s + c, sep) == Rest(Rest(s, sep) + c, sep)
  {
    var t := s[1..];
    StartsAtPrefix(s, c, 0, sep);
    assert (s + c)[1..] == t + c;
    if Frames(t, sep) == [] {
      SplitOnePiece(s, sep);
      Recompose(t, sep);
      RestIsWhole(s, sep);
    } else {
      SplitManyPieces(s, sep);
      SplitManyPieces(s + c, sep);
      var f, g := Frames(t, sep), Frames(Rest(t, sep) + c, sep);
      ConsAppend(s[0], f, g);
    }
  }

  lemma RestIsWhole(s: string, sep: string)
    requires sep != [] && s != []
    requires Rest(s, sep) == [s[0]] + Rest(s[1..], sep)
    requires Terminated([], sep) + Rest(s[1..], sep) == s[1..]
    ensures Rest(s, sep) == s
  {
    assert [s[0]] + s[1..] == s;
  }

  lemma ConsAppend(c: char, f: seq<string>, g: seq<string>)
    requires |f| >= 1
    ensures [[c] + (f + g)[0]] + (f + g)[1..] == ([[c] + f[0]] + f[1..]) + g
  {
    assert (f + g)[0] == f[0] && (f + g)[1..] == f[1..] + g;
    Reassoc([[c] + f[0]], f[1..], g);
  }

  /** The frames of a text made of clean frames, each terminated, are exactly those frames. */
  lemma {:induction false} FramesOfTerminated(frames: seq<string>, sep: string)
    requires sep != []
    requires forall j :: 0 <= j < |frames| ==> Clean(frames[j], sep)
    ensures Frames(Terminated(frames, sep), sep) == frames
    ensures Rest(Terminated(frames, sep), sep) == []
  {
    if frames == [] {
      SplitShort([], sep);
    } else {
      FramesOfTerminated(frames[1..], sep);
      FramesTerminated(frames[0], Terminated(frames[1..], sep), sep);
      assert [frames[0]] + frames[1..] == frames;
    }
  }

  /**
   * An unterminated trailing fragment is never a frame: after a text that ends exactly at a
   * separator, text without a separator adds no frame.
   */
  lemma TrailingFragmentDropped(s: string, tail: string, sep: string)
    requires sep != [] && Rest(s, sep) == [] && !Occurs(tail, sep)
    ensures Frames(s + tail, sep) == Frames(s, sep)
    ensures Rest(s + tail, sep) == tail
  {
    FramesAppend(s, tail, sep);
    assert Rest(s, sep) + tail == tail;
    SepFreeIsRest(tail, sep);
  }

  /** All chunks received so far, in order. */
  function Concat(chunks: seq<string>): string {
    if chunks == [] then [] else Concat(chunks[..|chunks| - 1]) + chunks[|chunks| - 1]
  }

  /** A last chunk without a separator, after a stream that ends exactly at one, adds no frame: the reader's `done` leaves it in the buffer. */
  lemma ChunksTrailing(chunks: seq<string>, tail: string, sep: string)
    requires sep != [] && Rest(Concat(chunks), sep) == [] && !Occurs(tail, sep)
    ensures Frames(Concat(chunks + [tail]), sep) == Frames(Concat(chunks), sep)
  {
    assert (chunks + [tail])[..|chunks|] == chunks;
    TrailingFragmentDropped(Concat(chunks), tail, sep);
  }

  /**
   * The reassembly state of one consumer: `buffer` is the JavaScript variable of the same
   * name; `received` (everything fed so far) and `emitted` (every frame handed on so far)
   * are the ghost view that the invariant ties it to.
   */
  class Reassembler {
    const sep: string
    var buffer: string
    ghost var received: string
    ghost var emitted: seq<string>

    /** The frames handed on are exactly the complete frames of the input so far, and the buffer is its remainder. */
    ghost predicate Valid()
      reads this
    {
      sep != [] && emitted == Frames(received, sep) && buffer == Rest(received, sep)
    }

    /** A consumer starts with an empty buffer. */
    constructor (mode: Mode)
      ensures Valid() && sep == Separator(mode)
      ensures buffer == [] && received == [] && emitted == []
    {
      sep := Separator(mode);
      buffer := [];
      received := [];
      emitted := [];
    }

    /** Appends the chunk to the buffer, splits it, keeps the last piece as the buffer and returns the others. */
    method Feed(chunk: string) returns (complete: seq<string>)
      requires Valid()
      modifies this
      ensures Valid()
      ensures received == old(received) + chunk && emitted == old(emitted) + complete
      ensures complete == Frames(old(buffer) + chunk, sep) && buffer == Rest(old(buffer) + chunk, sep)
      ensures Terminated(complete, sep) + buffer == old(buffer) + chunk
      ensures !Occurs(buffer, sep)
    {
      var whole := buffer + chunk;
      complete, buffer := Frames(whole, sep), Rest(whole, sep);
      FramesAppend(received, chunk, sep);
      Recompose(whole, sep);
      RestSepFree(whole, sep);
      received := received + chunk;
      emitted := emitted + complete;
    }
  }
}
