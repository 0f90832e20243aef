/** Splitting a byte stream into event blocks at double newlines, the way the event reader's scanner
    does: the buffer is searched for CRLFCRLF first and for LFLF only if there is none. */
module SseSplitter {
  import opened Bytes

  const LF: byte := 10
  const CR: byte := 13

  const LFLF: bytes := [10, 10]
  const CRLFCRLF: bytes := [13, 10, 13, 10]

  // ---------------------------------------------------------------------------
  // Searching
  // ---------------------------------------------------------------------------

  predicate Occurs(s: bytes, pat: bytes, i: int) {
    0 <= i && i + |pat| <= |s| && s[i..i + |pat|] == pat
  }

  /** The first occurrence at or after `from`, or -1. */
  function First(s: bytes, pat: bytes, from: nat): (i: int)
    ensures i == -1 || (from <= i && i + |pat| <= |s|)
    decreases |s| - from
  {
    if from + |pat| > |s| then -1
    else if s[from..from + |pat|] == pat then from
    else if from == |s| then -1
    else First(s, pat, from + 1)
  }

  lemma {:induction false} FirstIsFirst(s: bytes, pat: bytes, from: nat)
    ensures var i := First(s, pat, from);
            && (i != -1 ==> Occurs(s, pat, i) && forall j :: from <= j < i ==> !Occurs(s, pat, j))
            && (i == -1 ==> forall j :: from <= j ==> !Occurs(s, pat, j))
    decreases |s| - from
  {
    if from + |pat| <= |s| && s[from..from + |pat|] != pat && from != |s| {
      FirstIsFirst(s, pat, from + 1);
    }
  }

  /** Whatever occurs with nothing before it is what the search finds. */
  lemma FirstUnique(s: bytes, pat: bytes, i: int)
    requires Occurs(s, pat, i) && forall j :: 0 <= j < i ==> !Occurs(s, pat, j)
    ensures First(s, pat, 0) == i
  {
    FirstIsFirst(s, pat, 0);
  }

  lemma FirstNone(s: bytes, pat: bytes)
    requires forall j :: 0 <= j ==> !Occurs(s, pat, j)
    ensures First(s, pat, 0) == -1
  {
    FirstIsFirst(s, pat, 0);
  }

  datatype Separator = Separator(index: int, length: nat)

  ghost function Find(s: bytes): (r: Separator)
    ensures r.index >= 0 ==> r.length >= 2 && r.index + r.length <= |s|
  {
    var a := First(s, CRLFCRLF, 0);
    if a >= 0 then Separator(a, 4)
    else
      var b := First(s, LFLF, 0);
      if b >= 0 then Separator(b, 2) else Separator(-1, 0)
  }

  method ContainsDoubleNewline(data: bytes) returns (index: int, length: nat)
    ensures Separator(index, length) == Find(data)
  {
    var i := 0;
    while i < |data| - 3
      invariant 0 <= i
      invariant forall j :: 0 <= j < i ==> !Occurs(data, CRLFCRLF, j)
    {
      if data[i] == CR && data[i + 1] == LF && data[i + 2] == CR && data[i + 3] == LF {
        assert Occurs(data, CRLFCRLF, i) by { FourBytes(data, i); }
        FirstUnique(data, CRLFCRLF, i);
        return i, 4;
      }
      assert !Occurs(data, CRLFCRLF, i) by { FourBytes(data, i); }
      i := i + 1;
    }
    FirstNone(data, CRLFCRLF);
    i := 0;
    while i < |data| - 1
      invariant 0 <= i && First(data, CRLFCRLF, 0) == -1
      invariant forall j :: 0 <= j < i ==> !Occurs(data, LFLF, j)
    {
      if data[i] == LF && data[i + 1] == LF {
        assert Occurs(data, LFLF, i) by { TwoBytes(data, i); }
        FirstUnique(data, LFLF, i);
        return i, 2;
      }
      assert !Occurs(data, LFLF, i) by { TwoBytes(data, i); }
      i := i + 1;
    }
    FirstNone(data, LFLF);
    return -1, 0;
  }

  lemma TwoBytes(s: bytes, i: int)
    ensures Occurs(s, LFLF, i) <==> 0 <= i && i + 2 <= |s| && s[i] == LF && s[i + 1] == LF
  {
    if 0 <= i && i + 2 <= |s| {
      assert s[i..i + 2] == [s[i], s[i + 1]];
    }
  }

  lemma FourBytes(s: bytes, i: int)
    ensures Occurs(s, CRLFCRLF, i) <==>
            0 <= i && i + 4 <= |s| && s[i] == CR && s[i + 1] == LF && s[i + 2] == CR && s[i + 3] == LF
  {
    if 0 <= i && i + 4 <= |s| {
      assert s[i..i + 4] == [s[i], s[i + 1], s[i + 2], s[i + 3]];
    }
  }

  // ---------------------------------------------------------------------------
  // The split function and the scanner around it
  // ---------------------------------------------------------------------------

  datatype Token = NoToken | Token(block: bytes)

  datatype Split = Split(advance: nat, token: Token)

  /** The split function handed to the scanner. A token it returns before the end of the stream always
      consumes input. */
  method SplitData(data: bytes, atEOF: bool) returns (r: Split)
    ensures r == SplitSpec(data, atEOF)
    ensures r.advance <= |data|
    ensures r.token.Token? && !atEOF ==> r.advance >= 2
    ensures r.token.NoToken? ==> r.advance == 0
  {
    if atEOF && |data| == 0 {
      return Split(0, NoToken);
    }
    var i, n := ContainsDoubleNewline(data);
    if i >= 0 {
      return Split(i + n, Token(data[..i]));
    }
    if atEOF {
      return Split(|data|, Token(data));
    }
    return Split(0, NoToken);
  }

  ghost function SplitSpec(data: bytes, atEOF: bool): Split {
    if atEOF && data == [] then Split(0, NoToken)
    else
      var f := Find(data);
      if f.index >= 0 then Split(f.index + f.length, Token(data[..f.index]))
      else if atEOF then Split(|data|, Token(data))
      else Split(0, NoToken)
  }

  /** All blocks the scanner yields from a complete stream in its buffer. */
  ghost function Blocks(s: bytes): seq<bytes>
    decreases |s|
  {
    if s == [] then []
    else
      var f := Find(s);
      if f.index < 0 then [s] else [s[..f.index]] + Blocks(s[f.index + f.length..])
  }

  /** The scanner's loop at the end of the stream, call by call of the split function. */
  lemma BlocksBySplit(s: bytes)
    ensures var r := SplitSpec(s, true);
            Blocks(s) == if r.token.NoToken? then [] else [r.token.block] + Blocks(s[r.advance..])
  {
    assert Find([]).index < 0;
  }

  datatype Drained = Drained(blocks: seq<bytes>, rest: bytes)

  /** The blocks the scanner can yield before it has to read more. */
  ghost function Drain(buf: bytes): Drained
    decreases |buf|
  {
    var f := Find(buf);
    if f.index < 0 then Drained([], buf)
    else
      var d := Drain(buf[f.index + f.length..]);
      Drained([buf[..f.index]] + d.blocks, d.rest)
  }

  /** The scanner's loop before the end of the stream, call by call of the split function. */
  lemma DrainBySplit(buf: bytes)
    ensures var r := SplitSpec(buf, false);
            var d := Drain(buf[r.advance..]);
            Drain(buf) == if r.token.NoToken? then Drained([], buf) else Drained([r.token.block] + d.blocks, d.rest)
  {
  }

  /** The blocks of a stream that arrives in these chunks, `buf` being read already. */
  ghost function Scan(buf: bytes, chunks: seq<bytes>): seq<bytes>
    decreases |chunks|
  {
    if chunks == [] then Blocks(buf)
    else
      var d := Drain(buf + chunks[0]);
      d.blocks + Scan(d.rest, chunks[1..])
  }

  ghost function Concat(chunks: seq<bytes>): bytes {
    if chunks == [] then [] else chunks[0] + Concat(chunks[1..])
  }

  // ---------------------------------------------------------------------------
  // Chunk independence
  // ---------------------------------------------------------------------------

  /** Every separator the search picks is the earliest one there is. */
  ghost predicate Unambiguous(s: bytes)
    decreases |s|
  {
    var f := Find(s);
    f.index < 0 ||
    ((f.length == 4 ==> forall p :: 0 <= p < f.index ==> !Occurs(s, LFLF, p))
     && Unambiguous(s[f.index + f.length..]))
  }

  lemma OccursInPrefix(b: bytes, more: bytes, pat: bytes, i: int)
    ensures Occurs(b, pat, i) ==> Occurs(b + more, pat, i)
    ensures Occurs(b + more, pat, i) && i + |pat| <= |b| ==> Occurs(b, pat, i)
  {
    if 0 <= i && i + |pat| <= |b| {
      assert (b + more)[i..i + |pat|] == b[i..i + |pat|];
    }
  }

  /** The first occurrence in a buffer is the first in every extension of it. */
  lemma FirstExtends(b: bytes, more: bytes, pat: bytes)
    requires First(b, pat, 0) >= 0
    ensures First(b + more, pat, 0) == First(b, pat, 0)
  {
    var i := First(b, pat, 0);
    FirstIsFirst(b, pat, 0);
    OccursInPrefix(b, more, pat, i);
    forall j | 0 <= j < i ensures !Occurs(b + more, pat, j) {
      OccursInPrefix(b, more, pat, j);
    }
    FirstUnique(b + more, pat, i);
  }

  /** A CRLFCRLF that reaches past an LFLF starts after it. */
  lemma NoOverlap(s: bytes, i: int, q: int)
    requires Occurs(s, LFLF, i) && Occurs(s, CRLFCRLF, q) && q <= i
    ensures q + 4 <= i + 1
  {
    TwoBytes(s, i);
    FourBytes(s, q);
  }

  /** On an unambiguous stream, what is found in a buffer is what is found in the whole of it. */
  lemma FindExtends(b: bytes, more: bytes)
    requires Unambiguous(b + more) && Find(b).index >= 0
    ensures Find(b + more) == Find(b)
  {
    if First(b, CRLFCRLF, 0) >= 0 {
      FirstExtends(b, more, CRLFCRLF);
    } else {
      FirstExtends(b, more, LFLF);
      var i, q := First(b, LFLF, 0), First(b + more, CRLFCRLF, 0);
      if q >= 0 {
        FirstIsFirst(b, CRLFCRLF, 0);
        FirstIsFirst(b + more, LFLF, 0);
        FirstIsFirst(b + more, CRLFCRLF, 0);
        OccursInPrefix(b, more, CRLFCRLF, q);
        assert q <= i;
        NoOverlap(b + more, i, q);
      }
    }
  }

  lemma BlocksFound(s: bytes)
    requires Find(s).index >= 0
    ensures var f := Find(s); Blocks(s) == [s[..f.index]] + Blocks(s[f.index + f.length..])
  {
  }

  lemma DrainFound(s: bytes)
    requires Find(s).index >= 0
    ensures var f := Find(s);
            var d := Drain(s[f.index + f.length..]);
            Drain(s) == Drained([s[..f.index]] + d.blocks, d.rest)
  {
  }

  lemma DrainNothing(s: bytes)
    requires Find(s).index < 0
    ensures Drain(s) == Drained([], s)
  {
  }

  lemma DrainEmpty(s: bytes)
    requires s == []
    ensures Drain(s) == Drained([], [])
  {
  }

  lemma UnambiguousTail(s: bytes)
    requires Unambiguous(s) && Find(s).index >= 0
    ensures var f := Find(s); Unambiguous(s[f.index + f.length..])
  {
  }

  lemma Regroup(x: bytes, ys: seq<bytes>, zs: seq<bytes>)
    ensures [x] + (ys + zs) == [x] + ys + zs
  {
  }

  /** On an unambiguous stream the next block is settled once its separator is in the buffer. */
  lemma FoundInBuffer(b: bytes, more: bytes)
    requires Unambiguous(b + more) && Find(b).index >= 0
    ensures var f := Find(b);
            var tail := b[f.index + f.length..] + more;
            Unambiguous(tail) && Blocks(b + more) == [b[..f.index]] + Blocks(tail)
  {
    var f := Find(b);
    FindExtends(b, more);
    BlocksFound(b + more);
    UnambiguousTail(b + more);
    assert (b + more)[f.index + f.length..] == b[f.index + f.length..] + more;
    assert (b + more)[..f.index] == b[..f.index];
  }

  /** Blocks that are those drained so far and those of what is left with more bytes. */
  ghost predicate Continues(blocks: seq<bytes>, d: Drained, more: bytes) {
    Unambiguous(d.rest + more) && blocks == d.blocks + Blocks(d.rest + more)
  }

  lemma ContinuesCons(block: bytes, blocks: seq<bytes>, d: Drained, more: bytes)
    requires Continues(blocks, d, more)
    ensures Continues([block] + blocks, Drained([block] + d.blocks, d.rest), more)
  {
    Regroup(block, d.blocks, Blocks(d.rest + more));
  }

  lemma {:induction false} DrainIsPrefix(b: bytes, more: bytes)
    requires Unambiguous(b + more)
    ensures Continues(Blocks(b + more), Drain(b), more)
    decreases |b|
  {
    var f := Find(b);
    if f.index >= 0 {
      var tail := b[f.index + f.length..];
      FoundInBuffer(b, more);
      DrainIsPrefix(tail, more);
      DrainFound(b);
      ContinuesCons(b[..f.index], Blocks(tail + more), Drain(tail), more);
    } else {
      DrainNothing(b);
    }
  }

  lemma {:induction false} ScanIsBlocks(buf: bytes, chunks: seq<bytes>)
    requires Unambiguous(buf + Concat(chunks))
    ensures Scan(buf, chunks) == Blocks(buf + Concat(chunks))
    decreases |chunks|
  {
    if chunks == [] {
      assert buf + [] == buf;
    } else {
      var more := Concat(chunks[1..]);
      assert buf + Concat(chunks) == (buf + chunks[0]) + more;
      DrainIsPrefix(buf + chunks[0], more);
      ScanIsBlocks(Drain(buf + chunks[0]).rest, chunks[1..]);
    }
  }

  lemma DrainTail(block: bytes, tail: bytes, d: Drained)
    requires tail == [] && d == Drained([block] + Drain(tail).blocks, Drain(tail).rest)
    ensures d == Drained([block], [])
  {
    DrainEmpty(tail);
  }

  /** A first chunk that ends with its first separator yields that block and leaves nothing behind. */
  lemma ScanAfterCut(b: bytes, f: Separator, rest: seq<bytes>)
    requires Find(b) == f && f.index >= 0 && f.index + f.length == |b|
    ensures Scan([], [b] + rest) == [b[..f.index]] + Scan([], rest)
  {
    DrainFound(b);
    DrainTail(b[..f.index], b[f.index + f.length..], Drain(b));
    assert [] + b == b;
    assert ([b] + rest)[1..] == rest;
  }

  /** Cutting after the first separator leaves it the first of the piece. */
  lemma FindInPiece(s: bytes)
    requires Find(s).index >= 0
    ensures var k := Find(s).index + Find(s).length; Find(s[..k]) == Find(s)
  {
    var f := Find(s);
    var k := f.index + f.length;
    assert s == s[..k] + s[k..];
    if f.length == 4 {
      FirstInPiece(s[..k], s[k..], CRLFCRLF);
    } else {
      FirstInPiece(s[..k], s[k..], LFLF);
      NoneInPiece(s[..k], s[k..], CRLFCRLF);
    }
  }

  lemma FirstInPiece(b: bytes, more: bytes, pat: bytes)
    requires First(b + more, pat, 0) >= 0 && First(b + more, pat, 0) + |pat| <= |b|
    ensures First(b, pat, 0) == First(b + more, pat, 0)
  {
    var i := First(b + more, pat, 0);
    FirstIsFirst(b + more, pat, 0);
    OccursInPrefix(b, more, pat, i);
    forall j | 0 <= j < i ensures !Occurs(b, pat, j) {
      OccursInPrefix(b, more, pat, j);
    }
    FirstUnique(b, pat, i);
  }

  lemma NoneInPiece(b: bytes, more: bytes, pat: bytes)
    requires First(b + more, pat, 0) == -1 || |b| < First(b + more, pat, 0) + |pat|
    ensures First(b, pat, 0) == -1
  {
    FirstIsFirst(b + more, pat, 0);
    forall j | 0 <= j ensures !Occurs(b, pat, j) {
      OccursInPrefix(b, more, pat, j);
    }
    FirstNone(b, pat);
  }

  /** A stream on which some separator is passed over has a cut that shows it. */
  lemma {:induction false} AmbiguousCut(s: bytes) returns (chunks: seq<bytes>)
    requires !Unambiguous(s)
    ensures Concat(chunks) == s && Scan([], chunks) != Blocks(s)
    decreases |s|
  {
    var f := Find(s);
    var k := f.index + f.length;
    if f.length == 4 && exists p :: 0 <= p < f.index && Occurs(s, LFLF, p) {
      chunks := EarlyCut(s);
    } else {
      var rest := AmbiguousCut(s[k..]);
      LateCut(s, f, rest);
      chunks := [s[..k]] + rest;
    }
  }

  /** A cut that shows it in the rest of the stream shows it in the stream. */
  lemma LateCut(s: bytes, f: Separator, rest: seq<bytes>)
    requires Find(s) == f && f.index >= 0
    requires Concat(rest) == s[f.index + f.length..] && Scan([], rest) != Blocks(s[f.index + f.length..])
    ensures Concat([s[..f.index + f.length]] + rest) == s
    ensures Scan([], [s[..f.index + f.length]] + rest) != Blocks(s)
  {
    var k := f.index + f.length;
    var chunks := [s[..k]] + rest;
    assert chunks[1..] == rest && s == s[..k] + s[k..];
    ScanAfterFirst(s, f, rest);
    BlocksFound(s);
    SameTail(s[..f.index], Scan([], rest), s[..f.index], Blocks(s[k..]));
  }

  lemma ScanAfterFirst(s: bytes, f: Separator, rest: seq<bytes>)
    requires Find(s) == f && f.index >= 0
    ensures Scan([], [s[..f.index + f.length]] + rest) == [s[..f.index]] + Scan([], rest)
  {
    var b := s[..f.index + f.length];
    FindInPiece(s);
    ScanAfterCut(b, f, rest);
    assert b[..f.index] == s[..f.index];
  }

  lemma SameTail(x: bytes, xs: seq<bytes>, y: bytes, ys: seq<bytes>)
    requires xs != ys
    ensures [x] + xs != [y] + ys
  {
    assert ([x] + xs)[1..] == xs && ([y] + ys)[1..] == ys;
  }

  lemma EarlyCut(s: bytes) returns (chunks: seq<bytes>)
    requires Find(s).length == 4 && exists p :: 0 <= p < Find(s).index && Occurs(s, LFLF, p)
    ensures Concat(chunks) == s && Scan([], chunks) != Blocks(s)
  {
    var q := Find(s).index;
    var p := First(s, LFLF, 0);
    var b, more := s[..p + 2], s[p + 2..];
    chunks := [b, more];
    assert chunks == [b] + [more];
    assert chunks[1..] == [more] && [more][1..] == [];
    assert s == b + more && Concat([more]) == more + Concat([]);
    FirstIsFirst(s, LFLF, 0);
    FirstIsFirst(s, CRLFCRLF, 0);
    TwoBytes(s, p);
    FourBytes(s, q);
    assert Find(b) == Separator(p, 2) by { PieceAtLf(s, p, q); }
    ScanAfterCut(b, Separator(p, 2), [more]);
    assert Scan([], chunks)[0] == b[..p];
    assert Blocks(s)[0] == s[..q];
    assert |b[..p]| < |s[..q]|;
  }

  lemma PieceAtLf(s: bytes, p: nat, q: nat)
    requires p == First(s, LFLF, 0) && q == First(s, CRLFCRLF, 0) && p + 2 <= q
    ensures Find(s[..p + 2]) == Separator(p, 2)
  {
    var b, more := s[..p + 2], s[p + 2..];
    assert s == b + more;
    FirstInPiece(b, more, LFLF);
    NoneInPiece(b, more, CRLFCRLF);
  }

  ghost predicate SameForAll(s: bytes) {
    forall chunks :: Concat(chunks) == s ==> Scan([], chunks) == Blocks(s)
  }

  /** The blocks do not depend on how the stream is cut into chunks exactly when the stream is
      unambiguous. */
  lemma ChunkIndependentIff(s: bytes)
    ensures SameForAll(s) <==> Unambiguous(s)
  {
    if Unambiguous(s) {
      forall chunks | Concat(chunks) == s ensures Scan([], chunks) == Blocks(s) {
        assert [] + s == s;
        ScanIsBlocks([], chunks);
      }
    } else {
      var chunks := AmbiguousCut(s);
    }
  }

  /** In particular a stream that uses only one kind of separator is read the same however it is cut. */
  lemma {:induction false} OneKindUnambiguous(s: bytes)
    requires (forall i :: !Occurs(s, CRLFCRLF, i)) || (forall i :: !Occurs(s, LFLF, i))
    ensures Unambiguous(s)
    decreases |s|
  {
    var f := Find(s);
    FirstIsFirst(s, CRLFCRLF, 0);
    if f.index >= 0 {
      var k := f.index + f.length;
      forall i, pat: bytes | Occurs(s[k..], pat, i) ensures Occurs(s, pat, k + i) {
        assert s[k..][i..i + |pat|] == s[k + i..k + i + |pat|];
      }
      OneKindUnambiguous(s[k..]);
    }
  }

  // ---------------------------------------------------------------------------
  // No byte is lost
  // ---------------------------------------------------------------------------

  ghost predicate AreSeparators(seps: seq<bytes>) {
    forall i :: 0 <= i < |seps| ==> seps[i] == LFLF || seps[i] == CRLFCRLF
  }

  /** Blocks, each followed by a separator but for a last one that may lack it. */
  ghost function Weave(blocks: seq<bytes>, seps: seq<bytes>): bytes
    requires |seps| <= |blocks| <= |seps| + 1
  {
    if blocks == [] then []
    else if seps == [] then blocks[0]
    else blocks[0] + seps[0] + Weave(blocks[1..], seps[1..])
  }

  /** The blocks and separators make up the stream. There is a block without a separator after it exactly when
      something comes after the last separator, and that block holds no separator. */
  ghost predicate Covers(s: bytes, blocks: seq<bytes>, seps: seq<bytes>) {
    && AreSeparators(seps)
    && |seps| <= |blocks| <= |seps| + 1
    && Weave(blocks, seps) == s
    && (|blocks| > |seps| ==>
          var last := blocks[|blocks| - 1];
          last != [] && forall i :: !Occurs(last, LFLF, i) && !Occurs(last, CRLFCRLF, i))
  }

  lemma FoundSeparator(s: bytes)
    ensures var f := Find(s);
            if f.index < 0 then forall i :: !Occurs(s, LFLF, i) && !Occurs(s, CRLFCRLF, i)
            else var sep := s[f.index..f.index + f.length];
                 (sep == LFLF || sep == CRLFCRLF) && s == s[..f.index] + sep + s[f.index + f.length..]
  {
    FirstIsFirst(s, CRLFCRLF, 0);
    FirstIsFirst(s, LFLF, 0);
  }

  lemma WeaveCons(block: bytes, sep: bytes, blocks: seq<bytes>, seps: seq<bytes>)
    requires |seps| <= |blocks| <= |seps| + 1
    ensures Weave([block] + blocks, [sep] + seps) == block + sep + Weave(blocks, seps)
  {
    assert ([block] + blocks)[1..] == blocks && ([sep] + seps)[1..] == seps;
  }

  lemma CoversCons(block: bytes, sep: bytes, s: bytes, blocks: seq<bytes>, seps: seq<bytes>)
    requires Covers(s, blocks, seps) && (sep == LFLF || sep == CRLFCRLF)
    ensures Covers(block + sep + s, [block] + blocks, [sep] + seps)
  {
    WeaveCons(block, sep, blocks, seps);
    assert |blocks| > |seps| ==> ([block] + blocks)[|blocks|] == blocks[|blocks| - 1];
  }

  lemma {:induction false} BlocksCover(s: bytes) returns (seps: seq<bytes>)
    ensures Covers(s, Blocks(s), seps)
    decreases |s|
  {
    FoundSeparator(s);
    var f := Find(s);
    seps := [];
    if s != [] && f.index >= 0 {
      var block, sep, rest := s[..f.index], s[f.index..f.index + f.length], s[f.index + f.length..];
      seps := BlocksCover(rest);
      CoversCons(block, sep, rest, Blocks(rest), seps);
      BlocksFound(s);
      seps := [sep] + seps;
    }
  }

  lemma {:induction false} DrainCovers(buf: bytes, more: bytes, blocks: seq<bytes>, seps: seq<bytes>)
    returns (all: seq<bytes>)
    requires Covers(Drain(buf).rest + more, blocks, seps)
    ensures Covers(buf + more, Drain(buf).blocks + blocks, all)
    decreases |buf|
  {
    FoundSeparator(buf);
    var f := Find(buf);
    if f.index < 0 {
      all := seps;
      assert [] + blocks == blocks;
    } else {
      var block, sep, rest := buf[..f.index], buf[f.index..f.index + f.length], buf[f.index + f.length..];
      var d := Drain(rest);
      DrainFound(buf);
      all := DrainCovers(rest, more, blocks, seps);
      CoversCons(block, sep, rest + more, d.blocks + blocks, all);
      Gather(block, sep, rest, more);
      Regroup(block, d.blocks, blocks);
      all := [sep] + all;
    }
  }

  lemma Gather(block: bytes, sep: bytes, rest: bytes, more: bytes)
    ensures block + sep + rest + more == block + sep + (rest + more)
  {
  }

  /** However the stream is cut into chunks, the blocks and the separators between them make it up: no byte
      is lost, and what comes after the last separator is a block. */
  lemma {:induction false} ScanCovers(buf: bytes, chunks: seq<bytes>) returns (seps: seq<bytes>)
    ensures Covers(buf + Concat(chunks), Scan(buf, chunks), seps)
    decreases |chunks|
  {
    if chunks == [] {
      seps := BlocksCover(buf);
      assert buf + [] == buf;
    } else {
      var d, more := Drain(buf + chunks[0]), Concat(chunks[1..]);
      seps := ScanCovers(d.rest, chunks[1..]);
      seps := DrainCovers(buf + chunks[0], more, Scan(d.rest, chunks[1..]), seps);
      assert buf + chunks[0] + more == buf + (chunks[0] + more);
    }
  }

  lemma FindNothing()
    ensures Find([]) == Separator(-1, 0)
  {
    FirstNone([], CRLFCRLF);
    FirstNone([], LFLF);
  }

  lemma FindLfLf()
    ensures Find([LF, LF]) == Separator(0, 2)
  {
    FirstNone([LF, LF], CRLFCRLF);
    TwoBytes([LF, LF], 0);
    FirstUnique([LF, LF], LFLF, 0);
  }

  lemma FindCrlfCrlf(before: bytes)
    requires CR !in before
    ensures Find(before + CRLFCRLF) == Separator(|before|, 4)
  {
    var s := before + CRLFCRLF;
    forall j | 0 <= j <= |before| ensures Occurs(s, CRLFCRLF, j) <==> j == |before| {
      FourBytes(s, j);
    }
    FirstUnique(s, CRLFCRLF, |before|);
  }

  /** LF LF CR LF CR LF is read as one block when it comes at once, the two line feeds being the block, and
      as two empty ones when it comes in pieces of two and four bytes. */
  lemma AmbiguousExample()
    ensures var s := LFLF + CRLFCRLF;
            && !Unambiguous(s)
            && Scan([], [s]) == [[LF, LF]]
            && Scan([], [LFLF, CRLFCRLF]) == [[], []]
  {
    var s := LFLF + CRLFCRLF;
    FindNothing();
    FindCrlfCrlf(LFLF);
    assert Occurs(s, LFLF, 0) by { TwoBytes(s, 0); }
    assert [] + s == s && s[6..] == [] && s[..2] == [LF, LF];
    assert Drain([]) == Drained([], []);
    assert Drain(s) == Drained([[LF, LF]], []);
    var whole: seq<bytes> := [s];
    assert whole[1..] == [];
    PiecesRead();
  }

  lemma PiecesRead()
    ensures Scan([], [LFLF, CRLFCRLF]) == [[], []]
  {
    FindNothing();
    FindLfLf();
    FindCrlfCrlf([]);
    assert [] + CRLFCRLF == CRLFCRLF && CRLFCRLF[4..] == [] && CRLFCRLF[..0] == [];
    assert [] + LFLF == LFLF && LFLF[2..] == [] && LFLF[..0] == [];
    assert Drain([]) == Drained([], []);
    assert Drain(LFLF) == Drained([[]], []);
    assert Drain(CRLFCRLF) == Drained([[]], []);
    assert [LFLF, CRLFCRLF][1..] == [CRLFCRLF];
    assert [CRLFCRLF][1..] == [];
    assert Scan([], [CRLFCRLF]) == [[]];
  }
}
