/**
  The mock ECU's receiving side.  Bytes written to it collect in an input
  buffer.  Until the three-byte initialisation marker FF FF EF has gone by,
  the mock only looks for that marker, carrying the last two bytes of each
  write over to the next so that a marker split across writes is still
  seen.  From then on each write hands at most one registered command (the
  byte after a `0x5A` marker) on to the command handler.
*/
module MockSerial {
  import opened Wrappers
  import opened Params
  import opened Definition
  import opened Utils

  /** Python's `s[-n:]` for n > 0: the last n elements, or all of s when it
      is shorter. */
  function LastN(s: seq<Byte>, n: nat): (r: seq<Byte>)
    ensures |r| == if |s| <= n then |s| else n
    ensures s == s[..|s| - |r|] + r
  {
    if |s| <= n then s else s[|s| - n..]
  }

  /** The number of bytes carried over while waiting for the marker: one
      fewer than the marker has. */
  const CarryLength: nat := |Init| - 1

  // ---------------------------------------------------------------------
  // The two phases of a write, as functions of the buffer
  // ---------------------------------------------------------------------

  /** The synchronisation phase on the buffer grown by the write: whether the
      marker has now been seen and the buffer that is left, which is the
      bytes after the marker when it was seen and the carry-over otherwise. */
  function Sync(buf: seq<Byte>, data: seq<Byte>): (r: (bool, seq<Byte>))
    ensures r.0 <==> Contains(buf + data, Init)
    ensures !r.0 ==> r.1 == LastN(buf + data, CarryLength)
    ensures r.0 ==> exists k: nat :: (FirstOccursAt(buf + data, Init, k) && r.1 == (buf + data)[k + |Init|..])
  {
    var scan := ScanMatch(buf + data, Init);
    if scan.0 then
      var k: nat :| OccursAt(buf + data, Init, k) && scan.1 == (buf + data)[k + |Init|..]
                    && forall j :: 0 <= j < k ==> !OccursAt(buf + data, Init, j);
      assert FirstOccursAt(buf + data, Init, k);
      scan
    else (false, LastN(scan.1, CarryLength))
  }

  /** The buffer the command search runs over: the grown buffer when the
      mock was already initialised, the bytes after the marker on the write
      that initialises it. */
  function Pending(initialized: bool, buf: seq<Byte>, data: seq<Byte>): seq<Byte>
  {
    if initialized then buf + data else Sync(buf, data).1
  }

  /** The first position at or after i holding the marker `0x5A` with a byte
      after it. */
  function FindCommand(buf: seq<Byte>, i: nat): (r: Option<nat>)
    ensures r.Some? ==> i <= r.value && r.value + 1 < |buf| && buf[r.value] == RegisterParam
    ensures r.Some? ==> forall j :: i <= j < r.value ==> buf[j] != RegisterParam
    ensures r.None? ==> forall j :: i <= j && j + 1 < |buf| ==> buf[j] != RegisterParam
    decreases |buf| - i
  {
    if i + 1 >= |buf| then None
    else if buf[i] == RegisterParam then Some(i)
    else FindCommand(buf, i + 1)
  }

  /** No `0x5A` occurs before position i. */
  predicate NoMarkerBefore(buf: seq<Byte>, i: nat)
    requires i <= |buf|
  {
    forall j :: 0 <= j < i ==> buf[j] != RegisterParam
  }

  /** The command search: the buffer left over and the command byte handed
      on, if any.  The command is the byte after the first `0x5A` that has a
      successor, and the buffer keeps exactly what follows that pair; with no
      such marker nothing is handed on and the buffer is kept whole. */
  function Extract(buf: seq<Byte>): (r: (seq<Byte>, Option<Byte>))
    ensures r.1.None? ==> r.0 == buf && forall j :: 0 <= j && j + 1 < |buf| ==> buf[j] != RegisterParam
    ensures r.1.Some? ==> exists i: nat :: (i + 1 < |buf| && buf[i] == RegisterParam && r.1.value == buf[i + 1]
                                       && r.0 == buf[i + 2..] && NoMarkerBefore(buf, i))
  {
    match FindCommand(buf, 0)
    case Some(i) => (buf[i + 2..], Some(buf[i + 1]))
    case None => (buf, None)
  }

  /** A command found at position i, with no marker before it, is the one the
      search hands on. */
  lemma ExtractAt(buf: seq<Byte>, i: nat)
    requires i + 1 < |buf| && buf[i] == RegisterParam
    requires forall j :: 0 <= j < i ==> !(buf[j] == RegisterParam && j + 1 < |buf|)
    ensures Extract(buf) == (buf[i + 2..], Some(buf[i + 1]))
  {
    assert FindCommand(buf, 0) == Some(i);
  }

  /** A buffer without a marker that has a successor hands nothing on. */
  lemma ExtractNone(buf: seq<Byte>)
    requires forall j :: 0 <= j < |buf| ==> !(buf[j] == RegisterParam && j + 1 < |buf|)
    ensures Extract(buf) == (buf, None)
  {
    assert FindCommand(buf, 0).None?;
  }

  // ---------------------------------------------------------------------
  // Properties of the marker search across writes
  // ---------------------------------------------------------------------

  /** An occurrence stays an occurrence when bytes are appended. */
  lemma ContainsGrows(w: seq<Byte>, d: seq<Byte>, needle: seq<Byte>)
    requires Contains(w, needle)
    ensures Contains(w + d, needle)
  {
    var k: nat :| OccursAt(w, needle, k);
    assert (w + d)[k..k + |needle|] == w[k..k + |needle|];
    assert OccursAt(w + d, needle, k);
  }

  /** An occurrence in a suffix is an occurrence in the whole. */
  lemma ContainsInSuffix(pre: seq<Byte>, s: seq<Byte>, needle: seq<Byte>, k: nat)
    requires OccursAt(s, needle, k)
    ensures OccursAt(pre + s, needle, |pre| + k)
  {
    assert (pre + s)[|pre| + k..|pre| + k + |needle|] == s[k..k + |needle|];
  }

  /** The carry-over is enough: when the bytes written so far hold no marker,
      the marker occurs in them plus the next write exactly when it occurs in
      their last |needle| - 1 bytes plus that write.  So a marker split
      across writes is found on the write that completes it. */
  lemma CarryOver(w: seq<Byte>, d: seq<Byte>, needle: seq<Byte>)
    requires |needle| >= 1 && !Contains(w, needle)
    ensures Contains(w + d, needle) <==> Contains(LastN(w, |needle| - 1) + d, needle)
  {
    var s := LastN(w, |needle| - 1);
    var pre := w[..|w| - |s|];
    assert w + d == pre + (s + d);
    if Contains(s + d, needle) {
      var k: nat :| OccursAt(s + d, needle, k);
      ContainsInSuffix(pre, s + d, needle, k);
    }
    if Contains(w + d, needle) {
      var k: nat :| OccursAt(w + d, needle, k);
      if k < |pre| {
        assert k + |needle| <= |w|;
        assert (w + d)[k..k + |needle|] == w[k..k + |needle|];
        assert OccursAt(w, needle, k);
        assert false;
      }
      var k' := k - |pre|;
      assert (s + d)[k'..k' + |needle|] == (pre + (s + d))[k..k + |needle|];
      assert OccursAt(s + d, needle, k');
    }
  }

  /** The last n bytes of the carry-over plus a write are the last n bytes of
      everything written. */
  lemma LastNOfCarry(w: seq<Byte>, d: seq<Byte>, n: nat)
    ensures LastN(LastN(w, n) + d, n) == LastN(w + d, n)
  {
    var s := LastN(w, n);
    var pre := w[..|w| - |s|];
    assert w + d == pre + (s + d);
  }

  // ---------------------------------------------------------------------
  // The mock
  // ---------------------------------------------------------------------

  class ConsultSerialMock {
    var initialized: bool
    var inputBuffer: seq<Byte>
    var outputBuffer: seq<Byte>
    /** Every byte written so far, in order. */
    ghost var written: seq<Byte>
    /** The command bytes handed to the command handler, in order. */
    ghost var dispatched: seq<Byte>

    /** The mock is initialised exactly when the marker occurs somewhere in
        what has been written; until then it holds only the last two bytes
        written and has handed on no command. */
    ghost predicate Valid()
      reads this
    {
      && (initialized <==> Contains(written, Init))
      && (!initialized ==> inputBuffer == LastN(written, CarryLength) && dispatched == [])
    }

    /** A fresh mock: not initialised, both buffers empty. */
    constructor ()
      ensures Valid()
      ensures !initialized && inputBuffer == [] && outputBuffer == []
      ensures written == [] && dispatched == []
    {
      initialized := false;
      inputBuffer := [];
      outputBuffer := [];
      written := [];
      dispatched := [];
      assert !OccursAt([], Init, 0);
    }

    /** _write: grows the input buffer by the data; while not initialised,
        looks for the marker and keeps the carry-over when it is absent;
        once initialised (including on the write that completes the marker)
        hands on at most one command and drops everything up to and
        including it. */
    method Write(data: seq<Byte>)
      requires Valid()
      modifies this
      ensures Valid()
      ensures written == old(written) + data
      ensures outputBuffer == old(outputBuffer)
      ensures old(initialized) ==> initialized
      ensures initialized <==> old(initialized) || Contains(old(inputBuffer) + data, Init)
      ensures !initialized ==> inputBuffer == LastN(old(inputBuffer) + data, CarryLength) && dispatched == old(dispatched)
      ensures initialized ==> inputBuffer == Extract(Pending(old(initialized), old(inputBuffer), data)).0
      ensures initialized ==> dispatched == old(dispatched) + ToSeq(Extract(Pending(old(initialized), old(inputBuffer), data)).1)
    {
      written := written + data;
      inputBuffer := inputBuffer + data;
      if !initialized {
        CarryOver(old(written), data, Init);
        var scan := ScanMatch(inputBuffer, Init);
        initialized, inputBuffer := scan.0, scan.1;
        if !initialized {
          inputBuffer := LastN(inputBuffer, CarryLength);
          LastNOfCarry(old(written), data, CarryLength);
          return;
        }
      } else {
        ContainsGrows(old(written), data, Init);
      }
      var buf := inputBuffer;
      assert buf == Pending(old(initialized), old(inputBuffer), data);
      var i := 0;
      while i < |buf|
        invariant 0 <= i <= |buf|
        invariant inputBuffer == buf && dispatched == old(dispatched)
        invariant forall j :: 0 <= j < i ==> !(buf[j] == RegisterParam && j + 1 < |buf|)
      {
        if buf[i] == RegisterParam {
          if i + 1 < |buf| {
            var command := buf[i + 1];
            inputBuffer := buf[i + 2..];
            dispatched := dispatched + [command];
            ExtractAt(buf, i);
            return;
          }
        }
        i := i + 1;
      }
      ExtractNone(buf);
    }
  }

  // ---------------------------------------------------------------------
  // Worked cases
  // ---------------------------------------------------------------------

  /** A write holding the marker twice keeps the bytes after the first
      marker, the second marker among them. */
  lemma SyncKeepsAfterFirstMarker()
    ensures Sync([], [0xFF, 0xFF, 0xEF, 0xFF, 0xFF, 0xEF]) == (true, [0xFF, 0xFF, 0xEF])
  {
    var w := [0xFF, 0xFF, 0xEF, 0xFF, 0xFF, 0xEF];
    assert [] + w == w;
    assert OccursAt(w, Init, 0);
    assert ScanMatch(w, Init) == (true, w[3..]);
  }

  /** A marker split over two writes: FF FF leaves the mock waiting with both
      bytes carried over, and EF completes the marker. */
  lemma SplitMarkerInitializes()
    ensures Sync([], [0xFF, 0xFF]) == (false, [0xFF, 0xFF])
    ensures Sync([0xFF, 0xFF], [0xEF]) == (true, [])
  {
    var first: seq<Byte> := [0xFF, 0xFF];
    assert !OccursAt(first, Init, 0);
    var both: seq<Byte> := [0xFF, 0xFF] + [0xEF];
    assert both[0..3] == Init;
    assert OccursAt(both, Init, 0);
    assert FirstOccurrence(both, Init, 0) == Some(0);
  }

  /** On the write that completes the marker, the bytes after it are already
      searched: FF then FF EF 5A 0C hands on command 0x0C with nothing left. */
  lemma CommandInInitializingWrite()
    ensures Pending(false, [0xFF], [0xFF, 0xEF, 0x5A, 0x0C]) == [0x5A, 0x0C]
    ensures Extract([0x5A, 0x0C]) == ([], Some(0x0C))
  {
    var all: seq<Byte> := [0xFF] + [0xFF, 0xEF, 0x5A, 0x0C];
    assert all[0..3] == Init;
    assert FirstOccurrence(all, Init, 0) == Some(0);
    assert all[3..] == [0x5A, 0x0C];
  }

  /** Only the first command of a write is handed on: 03 5A 0B 5A 0C hands
      on 0x0B and keeps 5A 0C for a later write. */
  lemma OneCommandPerWrite()
    ensures Extract([0x03, 0x5A, 0x0B, 0x5A, 0x0C]) == ([0x5A, 0x0C], Some(0x0B))
  {
    var buf: seq<Byte> := [0x03, 0x5A, 0x0B, 0x5A, 0x0C];
    ExtractAt(buf, 1);
  }

  /** A trailing marker waits for its command byte. */
  lemma TrailingMarkerWaits()
    ensures Extract([0x03, 0x5A]) == ([0x03, 0x5A], None)
  {
    ExtractNone([0x03, 0x5A]);
  }
}
