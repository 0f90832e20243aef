/** Events of a server-sent event stream, as byte strings. */
module SseEvent {
  import opened Bytes

  datatype Event = Event(id: bytes, data: bytes, name: bytes, retry: bytes, comment: bytes)
  {
    predicate HasContent() {
      |id| > 0 || |data| > 0 || |name| > 0 || |retry| > 0
    }
  }

  /** Go's `<` on strings: byte by byte, a proper prefix first. */
  predicate Less(a: bytes, b: bytes) {
    if b == [] then false
    else if a == [] then true
    else a[0] < b[0] || (a[0] == b[0] && Less(a[1..], b[1..]))
  }

  lemma {:induction false} LessTransitive(a: bytes, b: bytes, c: bytes)
    requires Less(a, b) && Less(b, c)
    ensures Less(a, c)
  {
    if a != [] && a[0] == b[0] && b[0] == c[0] {
      LessTransitive(a[1..], b[1..], c[1..]);
    }
  }

  lemma {:induction false} LessIrreflexive(a: bytes)
    ensures !Less(a, a)
  {
    if a != [] {
      LessIrreflexive(a[1..]);
    }
  }

  /** The strings agree up to a place where the first has the smaller byte. */
  ghost predicate SmallerAt(a: bytes, b: bytes, k: nat) {
    k < |a| && k < |b| && a[..k] == b[..k] && a[k] < b[k]
  }

  lemma SmallerShift(x: byte, a: bytes, b: bytes, k: nat)
    ensures SmallerAt([x] + a, [x] + b, k + 1) <==> SmallerAt(a, b, k)
  {
    if k < |a| && k < |b| {
      assert ([x] + a)[..k + 1] == [x] + a[..k] && ([x] + b)[..k + 1] == [x] + b[..k];
      assert a[..k] == ([x] + a[..k])[1..] && b[..k] == ([x] + b[..k])[1..];
    }
  }

  lemma PrefixShift(x: byte, a: bytes, b: bytes)
    ensures [x] + a < [x] + b <==> a < b
  {
    if [x] + a < [x] + b {
      assert a == ([x] + a)[1..] && b[..|a|] == ([x] + b)[..|a| + 1][1..];
    }
  }

  /** The first byte that differs decides, or a string ends before the other goes on. */
  lemma {:induction false} LessIff(a: bytes, b: bytes)
    ensures Less(a, b) <==> a < b || exists k: nat :: SmallerAt(a, b, k)
  {
    if a != [] && b != [] {
      var x, y := a[1..], b[1..];
      assert a == [a[0]] + x && b == [b[0]] + y;
      if a[0] == b[0] {
        LessIff(x, y);
        PrefixShift(a[0], x, y);
        if k: nat :| SmallerAt(x, y, k) {
          SmallerShift(a[0], x, y, k);
          assert SmallerAt(a, b, k + 1);
        }
        if k: nat :| SmallerAt(a, b, k) {
          SmallerShift(a[0], x, y, k - 1);
          assert SmallerAt(x, y, k - 1);
        }
      } else if a[0] < b[0] {
        assert SmallerAt(a, b, 0);
      }
    }
  }
}
