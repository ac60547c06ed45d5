/**
  What holds of the framed protocol over whole byte streams: soundness and conservation of
  one parse, independence from the cutting into chunks, resynchronisation after garbage and
  after a damaged frame, and what the checksum can tell apart.
 */
module FrameStream {
  import opened Common
  import opened Framing

  // ----- One attempt -----

  /** `f` is a frame around `content`: sync, a size that reads as the length, checksum. */
  ghost predicate IsFrame(size: SizeReader, f: seq<Byte>, content: seq<Byte>) {
    && |f| == |content| + 6
    && f[0] == 1 && f[1] == 2
    && size(f[2], f[3]) == Some(|content|)
    && f[4..|content| + 4] == content
    && f[|content| + 4..] == PaddedHex(Checksum(content))
  }

  lemma ReadFrameMeaning(size: SizeReader, b: seq<Byte>, content: seq<Byte>)
    ensures (exists length :: ReadFrame(size, b) == Frame(content, length))
       <==> |content| + 6 <= |b| && IsFrame(size, b[..|content| + 6], content)
  {
    var n := |content|;
    if n + 6 <= |b| {
      assert b[..n + 6][4..n + 4] == b[4..n + 4];
      assert b[..n + 6][n + 4..] == b[n + 4..n + 6];
    }
    if |content| + 6 <= |b| && IsFrame(size, b[..n + 6], content) {
      assert ReadFrame(size, b) == Frame(content, n + 6);
    }
  }

  /** A verdict does not depend on bytes that have not arrived yet. */
  lemma ReadFrameStable(size: SizeReader, b: seq<Byte>, t: seq<Byte>)
    requires !ReadFrame(size, b).Starved?
    ensures ReadFrame(size, b + t) == ReadFrame(size, b)
  {
    if |b| >= 4 && b[0] == 1 && b[1] == 2 && size(b[2], b[3]).Some? {
      var n := size(b[2], b[3]).value;
      if |b| >= n + 6 {
        SliceKept(b, t, 4, n + 4);
        SliceKept(b, t, n + 4, n + 6);
      }
    }
  }

  // ----- One parse -----

  /** The first `k` bytes each start a genuine reject. */
  ghost predicate RejectsBefore(size: SizeReader, b: seq<Byte>, k: nat) {
    k <= |b| && forall j :: 0 <= j < k ==> ReadFrame(size, b[j..]).Reject?
  }

  /** `s` takes exactly the frame at the front of `u`, or leaves an unfinished one in place. */
  ghost predicate Settles(size: SizeReader, u: seq<Byte>, s: Scan) {
    match s
    case Scan(None, rest) => rest == u && (u == [] || ReadFrame(size, u).Starved?)
    case Scan(Some(content), rest) =>
      var end := |content| + 6;
      end <= |u| && IsFrame(size, u[..end], content) && rest == u[end..]
  }

  lemma RejectsBeforeTail(size: SizeReader, b: seq<Byte>, k: nat)
    requires b != []
    ensures RejectsBefore(size, b, k + 1) <==> ReadFrame(size, b).Reject? && RejectsBefore(size, b[1..], k)
  {
    assert b[0..] == b;
    assert forall j :: 0 <= j < |b| ==> b[1..][j..] == b[j + 1..];
    if RejectsBefore(size, b, k + 1) {
      forall j | 0 <= j < k
        ensures ReadFrame(size, b[1..][j..]).Reject?
      {
        assert ReadFrame(size, b[j + 1..]).Reject?;
      }
    }
    if ReadFrame(size, b).Reject? && RejectsBefore(size, b[1..], k) {
      forall j | 0 <= j < k + 1
        ensures ReadFrame(size, b[j..]).Reject?
      {
        if j > 0 {
          assert ReadFrame(size, b[1..][j - 1..]).Reject?;
        }
      }
    }
  }

  /** One parse drops genuine rejects only, and conserves every other byte. */
  lemma {:induction false} ScanOnceSound(size: SizeReader, b: seq<Byte>) returns (k: nat)
    ensures RejectsBefore(size, b, k) && Settles(size, b[k..], ScanOnce(size, b))
    decreases |b|
  {
    k := 0;
    if b != [] {
      match ReadFrame(size, b)
      case Starved =>
      case Frame(content, length) =>
        ReadFrameMeaning(size, b, content);
      case Reject(_) =>
        var k' := ScanOnceSound(size, b[1..]);
        RejectsBeforeTail(size, b, k');
        k := k' + 1;
        assert b[1..][k'..] == b[k..];
    }
  }

  /** Those conditions leave no choice: the report they allow is the one `parse` makes. */
  lemma {:induction false} ScanOnceUnique(size: SizeReader, b: seq<Byte>, k: nat, s: Scan)
    requires RejectsBefore(size, b, k) && Settles(size, b[k..], s)
    ensures ScanOnce(size, b) == s
    decreases k
  {
    if k > 0 {
      RejectsBeforeTail(size, b, k - 1);
      assert b[1..][k - 1..] == b[k..];
      ScanOnceUnique(size, b[1..], k - 1, s);
    } else {
      assert b[0..] == b;
      if s.frame.Some? {
        ReadFrameMeaning(size, b, s.frame.value);
      }
    }
  }

  /** Bytes arriving later do not change a frame already found; otherwise the scan resumes. */
  lemma {:induction false} ScanAppend(size: SizeReader, b: seq<Byte>, t: seq<Byte>)
    ensures ScanOnce(size, b + t) ==
            var s := ScanOnce(size, b);
            if s.frame.Some? then Scan(s.frame, s.rest + t) else ScanOnce(size, s.rest + t)
    decreases |b|
  {
    if b != [] && !ReadFrame(size, b).Starved? {
      ReadFrameStable(size, b, t);
      match ReadFrame(size, b)
      case Frame(_, length) =>
        assert (b + t)[length..] == b[length..] + t;
      case Reject(_) =>
        assert (b + t)[1..] == b[1..] + t;
        ScanAppend(size, b[1..], t);
    }
  }

  /** What is at the front of `b` may still become a frame. */
  predicate Waits(size: SizeReader, b: seq<Byte>) {
    || |b| == 1
    || (|b| >= 2 && b[0] == 1 && b[1] == 2
        && (|b| < 4 || (size(b[2], b[3]).Some? && |b| < size(b[2], b[3]).value + 6)))
  }

  ghost predicate StartsWithFrame(size: SizeReader, b: seq<Byte>, content: seq<Byte>) {
    |content| + 6 <= |b| && IsFrame(size, b[..|content| + 6], content)
  }

  /**
    What a parse does, by the bytes alone: it keeps the whole buffer iff it waits, takes a
    frame at the front, and otherwise drops one byte and goes on.
   */
  lemma ParseLaws(size: SizeReader, b: seq<Byte>, content: seq<Byte>)
    requires b != []
    ensures ScanOnce(size, b) == Scan(None, b) <==> Waits(size, b)
    ensures StartsWithFrame(size, b, content) ==> ScanOnce(size, b) == Scan(Some(content), b[|content| + 6..])
    ensures !Waits(size, b) && (forall c :: !StartsWithFrame(size, b, c)) ==> ScanOnce(size, b) == ScanOnce(size, b[1..])
  {
    ReadFrameMeaning(size, b, content);
    hide IsFrame;
    match ReadFrame(size, b)
    case Starved =>
    case Reject(_) =>
    case Frame(c, length) =>
      ReadFrameMeaning(size, b, c);
      assert StartsWithFrame(size, b, c);
  }

  // ----- Draining: parse until nothing more comes out -----

  function Drain(size: SizeReader, b: seq<Byte>): seq<seq<Byte>>
    decreases |b|
  {
    var s := ScanOnce(size, b);
    if s.frame.None? then [] else [s.frame.value] + Drain(size, s.rest)
  }

  function Residue(size: SizeReader, b: seq<Byte>): seq<Byte>
    decreases |b|
  {
    var s := ScanOnce(size, b);
    if s.frame.None? then s.rest else Residue(size, s.rest)
  }

  lemma {:induction false} DrainAppend(size: SizeReader, b: seq<Byte>, t: seq<Byte>)
    ensures Drain(size, b + t) == Drain(size, b) + Drain(size, Residue(size, b) + t)
    ensures Residue(size, b + t) == Residue(size, Residue(size, b) + t)
    decreases |b|
  {
    hide ReadFrame;
    ScanAppend(size, b, t);
    var s := ScanOnce(size, b);
    if s.frame.Some? {
      DrainAppend(size, s.rest, t);
      var more := Drain(size, Residue(size, b) + t);
      assert [s.frame.value] + (Drain(size, s.rest) + more) == ([s.frame.value] + Drain(size, s.rest)) + more;
    }
  }

  // ----- The connection's accumulator: one parse per chunk -----

  /** The frames handed on so far and the accumulated bytes not yet consumed. */
  datatype Stream = Stream(delivered: seq<seq<Byte>>, acc: seq<Byte>)

  const IDLE := Stream([], [])

  /** One read callback: append the chunk, parse once. */
  function Receive(size: SizeReader, st: Stream, chunk: seq<Byte>): Stream {
    var s := ScanOnce(size, st.acc + chunk);
    Stream(if s.frame.Some? then st.delivered + [s.frame.value] else st.delivered, s.rest)
  }

  function ReceiveAll(size: SizeReader, chunks: seq<seq<Byte>>): Stream {
    if chunks == [] then IDLE
    else Receive(size, ReceiveAll(size, chunks[..|chunks| - 1]), chunks[|chunks| - 1])
  }

  /** `st` accounts for all of `received`: nothing lost, nothing invented, order kept. */
  ghost predicate Accounts(size: SizeReader, st: Stream, received: seq<Byte>) {
    && st.delivered + Drain(size, st.acc) == Drain(size, received)
    && Residue(size, st.acc) == Residue(size, received)
  }

  lemma ReceiveStep(size: SizeReader, st: Stream, chunk: seq<Byte>)
    ensures var next := Receive(size, st, chunk);
      && next.delivered + Drain(size, next.acc) == st.delivered + Drain(size, st.acc + chunk)
      && Residue(size, next.acc) == Residue(size, st.acc + chunk)
      && |Drain(size, next.acc)| == var due := |Drain(size, st.acc + chunk)|; if due == 0 then 0 else due - 1
  {
    hide ReadFrame;
    var s := ScanOnce(size, st.acc + chunk);
    if s.frame.Some? {
      assert st.delivered + [s.frame.value] + Drain(size, s.rest) == st.delivered + ([s.frame.value] + Drain(size, s.rest));
    } else {
      ScanMore(size, st.acc + chunk);
    }
  }

  lemma ReceiveAccounts(size: SizeReader, st: Stream, received: seq<Byte>, chunk: seq<Byte>)
    requires Accounts(size, st, received)
    ensures Accounts(size, Receive(size, st, chunk), received + chunk)
    ensures |Drain(size, Receive(size, st, chunk).acc)| ==
            var due := |Drain(size, st.acc)| + |Drain(size, received + chunk)| - |Drain(size, received)|;
            if due == 0 then 0 else due - 1
  {
    hide ScanOnce, Receive, Drain, Residue;
    ReceiveStep(size, st, chunk);
    DrainAppend(size, received, chunk);
    DrainAppend(size, st.acc, chunk);
    var more := Drain(size, Residue(size, received) + chunk);
    assert st.delivered + (Drain(size, st.acc) + more) == (st.delivered + Drain(size, st.acc)) + more;
  }

  /** What a parse that found nothing leaves cannot yield a frame either. */
  lemma {:induction false} ScanMore(size: SizeReader, b: seq<Byte>)
    requires ScanOnce(size, b).frame.None?
    ensures ScanOnce(size, ScanOnce(size, b).rest) == ScanOnce(size, b)
    decreases |b|
  {
    if b != [] && ReadFrame(size, b).Reject? {
      ScanMore(size, b[1..]);
    }
  }

  /** However the bytes are cut, the frames handed on and the bytes kept account for all of them. */
  lemma {:induction false} ChunkingAccounts(size: SizeReader, chunks: seq<seq<Byte>>)
    ensures Accounts(size, ReceiveAll(size, chunks), Flatten(chunks))
  {
    if chunks != [] {
      var before, last := chunks[..|chunks| - 1], chunks[|chunks| - 1];
      ChunkingAccounts(size, before);
      ReceiveAccounts(size, ReceiveAll(size, before), Flatten(before), last);
      FlattenAppend(before, [last]);
      assert Flatten([last]) == last + Flatten([]) == last;
      assert before + [last] == chunks;
    }
  }

  /** Two cuttings of the same bytes agree on what is delivered or still to be drained. */
  lemma ChunkingIndependence(size: SizeReader, chunks: seq<seq<Byte>>, others: seq<seq<Byte>>)
    requires Flatten(chunks) == Flatten(others)
    ensures ReceiveAll(size, chunks).delivered + Drain(size, ReceiveAll(size, chunks).acc)
         == ReceiveAll(size, others).delivered + Drain(size, ReceiveAll(size, others).acc)
    ensures Residue(size, ReceiveAll(size, chunks).acc) == Residue(size, ReceiveAll(size, others).acc)
  {
    ChunkingAccounts(size, chunks);
    ChunkingAccounts(size, others);
  }

  /** The number of frames that the last chunk completes. */
  function Completed(size: SizeReader, chunks: seq<seq<Byte>>): int
    requires chunks != []
  {
    |Drain(size, Flatten(chunks))| - |Drain(size, Flatten(chunks[..|chunks| - 1]))|
  }

  ghost predicate CaughtUp(size: SizeReader, chunks: seq<seq<Byte>>) {
    ReceiveAll(size, chunks).delivered == Drain(size, Flatten(chunks))
  }

  /**
    One parse per read is not enough in general: the connection has handed on every complete
    frame after every read iff no single read completes more than one frame.
   */
  lemma {:induction false} CaughtUpIff(size: SizeReader, chunks: seq<seq<Byte>>)
    ensures (forall n :: 0 <= n <= |chunks| ==> CaughtUp(size, chunks[..n]))
       <==> (forall n :: 0 < n <= |chunks| ==> Completed(size, chunks[..n]) <= 1)
  {
    if forall n :: 0 <= n <= |chunks| ==> CaughtUp(size, chunks[..n]) {
      forall n | 0 < n <= |chunks|
        ensures Completed(size, chunks[..n]) <= 1
      {
        assert CaughtUp(size, chunks[..n]) && CaughtUp(size, chunks[..n - 1]);
        Pending(size, chunks[..n]);
        assert chunks[..n][..n - 1] == chunks[..n - 1];
      }
    }
    if forall n :: 0 < n <= |chunks| ==> Completed(size, chunks[..n]) <= 1 {
      forall n | 0 <= n <= |chunks|
        ensures CaughtUp(size, chunks[..n])
      {
        StaysCaughtUp(size, chunks, n);
      }
    }
  }

  lemma Pending(size: SizeReader, chunks: seq<seq<Byte>>)
    ensures CaughtUp(size, chunks) <==> Drain(size, ReceiveAll(size, chunks).acc) == []
    ensures chunks != [] ==>
      var due := |Drain(size, ReceiveAll(size, chunks[..|chunks| - 1]).acc)| + Completed(size, chunks);
      |Drain(size, ReceiveAll(size, chunks).acc)| == if due == 0 then 0 else due - 1
  {
    hide ScanOnce, Drain, Residue, Receive;
    ChunkingAccounts(size, chunks);
    if chunks != [] {
      var before, last := chunks[..|chunks| - 1], chunks[|chunks| - 1];
      ChunkingAccounts(size, before);
      ReceiveAccounts(size, ReceiveAll(size, before), Flatten(before), last);
      FlattenAppend(before, [last]);
      assert Flatten([last]) == last + Flatten([]) == last;
      assert before + [last] == chunks;
    }
  }

  lemma {:induction false} StaysCaughtUp(size: SizeReader, chunks: seq<seq<Byte>>, n: nat)
    requires n <= |chunks|
    requires forall k :: 0 < k <= |chunks| ==> Completed(size, chunks[..k]) <= 1
    ensures CaughtUp(size, chunks[..n])
  {
    Pending(size, chunks[..n]);
    if n > 0 {
      StaysCaughtUp(size, chunks, n - 1);
      Pending(size, chunks[..n - 1]);
      assert chunks[..n][..n - 1] == chunks[..n - 1];
    }
  }

  /** The number of frames in what the first `m` reads bring. */
  function Arrived(size: SizeReader, chunks: seq<seq<Byte>>, m: nat): nat
    requires m <= |chunks|
  {
    |Drain(size, Flatten(chunks[..m]))|
  }

  /** One read hands on one frame more, if there is one. */
  lemma OneMoreRead(size: SizeReader, chunks: seq<seq<Byte>>)
    requires chunks != []
    ensures var n, before := |chunks|, |ReceiveAll(size, chunks[..|chunks| - 1]).delivered|;
      |ReceiveAll(size, chunks).delivered| == if before < Arrived(size, chunks, n) then before + 1 else Arrived(size, chunks, n)
    ensures |ReceiveAll(size, chunks[..|chunks| - 1]).delivered| <= Arrived(size, chunks, |chunks| - 1)
  {
    hide ScanOnce, Drain, Residue, Receive, ReceiveAll;
    var before := chunks[..|chunks| - 1];
    Pending(size, chunks);
    ChunkingAccounts(size, chunks);
    ChunkingAccounts(size, before);
    assert chunks[..|chunks|] == chunks;
  }

  /**
    How many frames have been handed on, for every cutting: as many as some first `m` reads
    brought, and one for each read after them. Each `m` is a bound, and one is attained;
    the frames handed on are the first of all those that came.
   */
  lemma {:induction false} DeliveredExactly(size: SizeReader, chunks: seq<seq<Byte>>) returns (m: nat)
    ensures ReceiveAll(size, chunks).delivered <= Drain(size, Flatten(chunks))
    ensures forall k :: 0 <= k <= |chunks| ==>
      |ReceiveAll(size, chunks).delivered| <= Arrived(size, chunks, k) + |chunks| - k
    ensures m <= |chunks| && |ReceiveAll(size, chunks).delivered| == Arrived(size, chunks, m) + |chunks| - m
    decreases |chunks|
  {
    hide Drain, Receive, ReceiveAll, Arrived;
    DeliveredFirst(size, chunks);
    if chunks == [] {
      m := 0;
    } else {
      var before := chunks[..|chunks| - 1];
      m := DeliveredExactly(size, before);
      OneMoreRead(size, chunks);
      forall k | 0 <= k <= |before|
        ensures Arrived(size, before, k) == Arrived(size, chunks, k)
      {
        ArrivedEarlier(size, chunks, k);
      }
      if |ReceiveAll(size, before).delivered| >= Arrived(size, chunks, |chunks|) {
        m := |chunks|;
      }
    }
  }

  lemma DeliveredFirst(size: SizeReader, chunks: seq<seq<Byte>>)
    ensures ReceiveAll(size, chunks).delivered <= Drain(size, Flatten(chunks))
    ensures |ReceiveAll(size, chunks).delivered| <= Arrived(size, chunks, |chunks|)
    ensures chunks == [] ==> Arrived(size, chunks, 0) == 0
  {
    ChunkingAccounts(size, chunks);
    assert chunks[..|chunks|] == chunks;
    assert Drain(size, []) == [];
  }

  lemma ArrivedEarlier(size: SizeReader, chunks: seq<seq<Byte>>, k: nat)
    requires k < |chunks|
    ensures Arrived(size, chunks[..|chunks| - 1], k) == Arrived(size, chunks, k)
  {
    hide Drain;
    assert chunks[..|chunks| - 1][..k] == chunks[..k];
  }

  /** So nothing is late at the end iff, from any read on, no more frames came than there were reads. */
  lemma CaughtUpAtEndIff(size: SizeReader, chunks: seq<seq<Byte>>)
    ensures CaughtUp(size, chunks)
       <==> forall m :: 0 <= m <= |chunks| ==>
              Arrived(size, chunks, |chunks|) - Arrived(size, chunks, m) <= |chunks| - m
  {
    var m := DeliveredExactly(size, chunks);
    hide ScanOnce, Drain, ReceiveAll;
    assert chunks[..|chunks|] == chunks;
  }

  /** Reads that complete no frame hand on what is pending, one frame each. */
  lemma {:induction false} QuietReadsFlush(size: SizeReader, chunks: seq<seq<Byte>>, extra: seq<seq<Byte>>)
    requires forall n :: |chunks| < n <= |chunks + extra| ==> Completed(size, (chunks + extra)[..n]) == 0
    ensures CaughtUp(size, chunks + extra) <==> |extra| >= |Drain(size, ReceiveAll(size, chunks).acc)|
    decreases |extra|
  {
    hide ScanOnce, Drain, ReceiveAll;
    var all := chunks + extra;
    if extra == [] {
      Pending(size, chunks);
      assert all == chunks;
    } else {
      var more := chunks + [extra[0]];
      assert more + extra[1..] == all && all[..|more|] == more && more[..|chunks|] == chunks;
      Pending(size, more);
      QuietReadsFlush(size, more, extra[1..]);
    }
  }

  // ----- Printing and parsing -----

  /** The printer is inverted for exactly the payloads whose length fits two hex digits. */
  lemma PackReadInverse(size: SizeReader, content: seq<Byte>, rest: seq<Byte>)
    requires ReadsHexPairs(size)
    ensures ReadFrame(size, PackContent(content) + rest) == Frame(content, |content| + 6) <==> |content| <= 255
  {
    var n := |content|;
    var b := PackContent(content) + rest;
    PackedParts(content, rest);
    hide PackContent, PaddedHex, Checksum;
    if n <= 255 {
      PaddedHexOfByte(n);
      assert size(b[2], b[3]) == Some(n);
    } else {
      var k := LeadingPair(n);
      assert PaddedHex(n)[..2][0] == b[2] && PaddedHex(n)[..2][1] == b[3];
      assert size(b[2], b[3]) == Some(k);
    }
  }

  lemma PackedParts(content: seq<Byte>, rest: seq<Byte>)
    ensures var n, b := |content|, PackContent(content) + rest;
      && |b| == n + 6 + |rest| && b[0] == 1 && b[1] == 2
      && b[2] == PaddedHex(n)[0] && b[3] == PaddedHex(n)[1]
      && b[4..n + 4] == content && b[n + 4..n + 6] == PaddedHex(Checksum(content))
  {
    PaddedHexOfByte(Checksum(content));
    hide PaddedHex, Checksum;
    var size, cc := PaddedHex(|content|)[..2], PaddedHex(Checksum(content));
    assert cc[..2] == cc;
    var b := [1, 2] + size + content + cc + rest;
    assert PackContent(content) + rest == b;
    assert b[4..|content| + 4] == content;
    assert b[|content| + 4..|content| + 6] == cc;
  }

  /** The first two hexadecimal digits of any number are those of a number below 256. */
  lemma {:induction false} LeadingPair(n: nat) returns (k: nat)
    ensures k < 256
    ensures PaddedHex(n)[..2] == [HexDigit(k / 16, false), HexDigit(k % 16, false)]
  {
    if n < 256 {
      PaddedHexOfByte(n);
      k := n;
    } else {
      k := LeadingPair(n / 16);
      assert PaddedHex(n)[..2] == PaddedHex(n / 16)[..2];
    }
  }

  // ----- Resynchronisation -----

  /** No sync pattern anywhere in `g`. */
  predicate NoSync(g: seq<Byte>) {
    forall i :: 0 <= i < |g| - 1 ==> !(g[i] == 1 && g[i + 1] == 2)
  }

  lemma {:induction false} ScanSkipsGarbage(size: SizeReader, g: seq<Byte>, f: seq<Byte>)
    requires NoSync(g) && f != [] && f[0] == 1
    ensures ScanOnce(size, g + f) == ScanOnce(size, f)
    decreases |g|
  {
    if g == [] {
      assert g + f == f;
    } else {
      assert (g + f)[1..] == g[1..] + f;
      assert |g| > 1 ==> !(g[0] == 1 && g[1] == 2);
      assert ReadFrame(size, g + f).Reject?;
      forall i | 0 <= i < |g[1..]| - 1
        ensures !(g[1..][i] == 1 && g[1..][i + 1] == 2)
      {
        assert !(g[i + 1] == 1 && g[i + 2] == 2);
      }
      ScanSkipsGarbage(size, g[1..], f);
    }
  }

  /**
    A sync pattern and a size `n` hold everything back, and keep it, until n + 6 bytes have
    come from the sync pattern on; not longer.
   */
  lemma HeaderWaitsIff(size: SizeReader, g: seq<Byte>, a: Byte, b: Byte, t: seq<Byte>)
    requires NoSync(g) && size(a, b).Some?
    ensures var f := [1, 2, a, b] + t;
      ScanOnce(size, g + f) == Scan(None, f) <==> |f| < size(a, b).value + 6
  {
    ScanSkipsGarbage(size, g, [1, 2, a, b] + t);
  }

  /** A size that does not read: the search goes on with the next byte. */
  lemma UnreadableSizeSkipped(size: SizeReader, g: seq<Byte>, a: Byte, b: Byte, t: seq<Byte>)
    requires NoSync(g) && size(a, b).None?
    ensures ScanOnce(size, g + ([1, 2, a, b] + t)) == ScanOnce(size, [2, a, b] + t)
  {
    var f := [1, 2, a, b] + t;
    ScanSkipsGarbage(size, g, f);
    assert f[1..] == [2, a, b] + t;
  }

  /** A parse of garbage followed by a printed frame takes exactly that frame. */
  lemma ScanGarbageThenFrame(size: SizeReader, g: seq<Byte>, content: seq<Byte>, rest: seq<Byte>)
    requires ReadsHexPairs(size) && NoSync(g) && |content| <= 255
    ensures ScanOnce(size, g + PackContent(content) + rest) == Scan(Some(content), rest)
  {
    var f := PackContent(content);
    PackReadInverse(size, content, rest);
    assert |f| == |content| + 6;
    assert (f + rest)[|f|..] == rest;
    ScanSkipsGarbage(size, g, f + rest);
    assert g + f + rest == g + (f + rest);
  }

  /** So a packed frame behind such a header is found. */
  lemma FrameBehindUnreadableSize(size: SizeReader, g: seq<Byte>, a: Byte, b: Byte, content: seq<Byte>, rest: seq<Byte>)
    requires ReadsHexPairs(size) && NoSync(g) && size(a, b).None? && |content| <= 255
    requires !(a == 1 && b == 2)
    ensures ScanOnce(size, g + ([1, 2, a, b] + (PackContent(content) + rest))) == Scan(Some(content), rest)
  {
    UnreadableSizeSkipped(size, g, a, b, PackContent(content) + rest);
    ScanGarbageThenFrame(size, [2, a, b], content, rest);
    Associates([2, a, b], PackContent(content), rest);
  }

  /** After any bytes whatever, exactly the packed frame is found iff each of those bytes starts a reject. */
  lemma FrameFoundIff(size: SizeReader, f: seq<Byte>, next: seq<Byte>, rest: seq<Byte>)
    requires ReadsHexPairs(size) && |next| <= 255
    ensures var b := f + PackContent(next) + rest;
      ScanOnce(size, b) == Scan(Some(next), rest) <==> RejectsBefore(size, b, |f|)
  {
    var b, p := f + PackContent(next) + rest, PackContent(next) + rest;
    PackReadInverse(size, next, rest);
    ReadFrameMeaning(size, p, next);
    PackLength(next);
    hide PackContent, ReadFrame, ScanOnce, IsFrame;
    Associates(f, PackContent(next), rest);
    AppendSplits(f, p);
    AppendSplits(PackContent(next), rest);
    if RejectsBefore(size, b, |f|) {
      ScanOnceUnique(size, b, |f|, Scan(Some(next), rest));
    }
    var k := ScanOnceSound(size, b);
    if ScanOnce(size, b) == Scan(Some(next), rest) {
      assert |rest| == |b| - k - (|next| + 6);
    }
  }

  /** Two frames that come in one read are not both handed on at once; the next read brings the second. */
  lemma TwoInOneRead(size: SizeReader, a: seq<Byte>, b: seq<Byte>, next: seq<Byte>)
    requires ReadsHexPairs(size) && |a| <= 255 && |b| <= 255
    ensures var both := PackContent(a) + PackContent(b);
      && ReceiveAll(size, [both]) == Stream([a], PackContent(b))
      && !CaughtUp(size, [both])
      && ReceiveAll(size, [both, next]) == Stream([a, b], next)
  {
    hide PackContent, ReadFrame, ScanOnce, ReceiveAll, CaughtUp;
    ScanFrame(size, a, PackContent(b));
    ScanFrame(size, b, []);
    ScanFrame(size, b, next);
    assert PackContent(b) + [] == PackContent(b);
    SecondWaits(size, PackContent(a) + PackContent(b), a, PackContent(b), b, next);
  }

  lemma ScanFrame(size: SizeReader, content: seq<Byte>, rest: seq<Byte>)
    requires ReadsHexPairs(size) && |content| <= 255
    ensures ScanOnce(size, PackContent(content) + rest) == Scan(Some(content), rest)
  {
    hide PackContent, ScanOnce;
    ScanGarbageThenFrame(size, [], content, rest);
    assert [] + PackContent(content) == PackContent(content);
  }

  lemma SecondWaits(size: SizeReader, x: seq<Byte>, a: seq<Byte>, y: seq<Byte>, b: seq<Byte>, next: seq<Byte>)
    requires ScanOnce(size, x) == Scan(Some(a), y)
    requires ScanOnce(size, y).frame.Some? && ScanOnce(size, y + next) == Scan(Some(b), next)
    ensures ReceiveAll(size, [x]) == Stream([a], y) && !CaughtUp(size, [x])
    ensures ReceiveAll(size, [x, next]) == Stream([a, b], next)
  {
    hide ScanOnce, ReceiveAll, Drain, Residue;
    assert IDLE.acc + x == x;
    TwoReads(size, x, next);
    ChunkingAccounts(size, [x]);
    OneFrame(size, y);
  }

  lemma TwoReads(size: SizeReader, x: seq<Byte>, y: seq<Byte>)
    ensures ReceiveAll(size, [x]) == Receive(size, IDLE, x)
    ensures ReceiveAll(size, [x, y]) == Receive(size, Receive(size, IDLE, x), y)
  {
    hide Receive;
    assert [x, y][..1] == [x];
  }

  lemma OneFrame(size: SizeReader, b: seq<Byte>)
    requires ScanOnce(size, b).frame.Some?
    ensures Drain(size, b) != []
  {
  }

  /** Frames on the wire, each preceded by some garbage. */
  function Wire(noise: seq<seq<Byte>>, contents: seq<seq<Byte>>): seq<Byte>
    requires |noise| == |contents|
  {
    if contents == [] then []
    else noise[0] + PackContent(contents[0]) + Wire(noise[1..], contents[1..])
  }

  /** All of the frames come out, in order, and nothing is left over. */
  lemma {:induction false} DrainInvertsWire(size: SizeReader, noise: seq<seq<Byte>>, contents: seq<seq<Byte>>)
    requires |noise| == |contents|
    requires ReadsHexPairs(size)
    requires forall i :: 0 <= i < |contents| ==> NoSync(noise[i]) && |contents[i]| <= 255
    ensures Drain(size, Wire(noise, contents)) == contents
    ensures Residue(size, Wire(noise, contents)) == []
  {
    if contents != [] {
      ScanGarbageThenFrame(size, noise[0], contents[0], Wire(noise[1..], contents[1..]));
      DrainInvertsWire(size, noise[1..], contents[1..]);
    }
  }

  // ----- What the checksum can tell apart -----

  lemma {:induction false} SumUpdate(content: seq<Byte>, i: nat, b: Byte)
    requires i < |content|
    ensures Sum(content[i := b]) == Sum(content) - content[i] + b
  {
    var last := |content| - 1;
    if i < last {
      SumUpdate(content[..last], i, b);
      assert content[i := b][..last] == content[..last][i := b];
    } else {
      assert content[i := b][..last] == content[..last];
    }
  }

  /** A changed byte escapes the checksum exactly when it went from 00 to FF or back. */
  lemma OneByteChange(content: seq<Byte>, i: nat, b: Byte)
    requires i < |content|
    ensures Checksum(content[i := b]) == Checksum(content)
       <==> b == content[i] || {b, content[i]} == {0, 255}
  {
    SumUpdate(content, i, b);
    var s, d := Sum(content), b - content[i];
    assert Checksum(content[i := b]) == (s + d) % 255;
    if {b, content[i]} == {0, 255} {
      assert b in {0, 255} && content[i] in {0, 255};
      assert 0 in {b, content[i]} && 255 in {b, content[i]};
    } else {
      assert d != 255 && d != -255;
    }
    ModShift(s, d);
  }

  /** The checksum is a sum: of nothing 0, of one byte its remainder, and additive. */
  lemma ChecksumLaws(a: seq<Byte>, b: seq<Byte>, x: Byte)
    ensures Checksum([]) == 0 && Checksum([x]) == x % 255
    ensures Checksum(a + b) == (Checksum(a) + Checksum(b)) % 255
  {
    assert [x][..0] == [];
    SumOfTwo(a, b);
  }

  lemma {:induction false} SumOfTwo(a: seq<Byte>, b: seq<Byte>)
    ensures Sum(a + b) == Sum(a) + Sum(b)
  {
    if b == [] {
      assert a + b == a;
    } else {
      SumOfTwo(a, b[..|b| - 1]);
      assert (a + b)[..|a + b| - 1] == a + b[..|b| - 1];
    }
  }

  lemma ModShift(s: int, d: int)
    requires -255 <= d <= 255
    ensures (s + d) % 255 == s % 255 <==> d == 0 || d == 255 || d == -255
  {
  }

  /** The frame of `content` with its content damaged on the way. */
  function Damaged(content: seq<Byte>, received: seq<Byte>): seq<Byte> {
    [1, 2] + PaddedHex(|content|)[..2] + received + PaddedHex(Checksum(content))[..2]
  }

  /** An undamaged frame is the packed one. */
  lemma Undamaged(content: seq<Byte>)
    ensures Damaged(content, content) == PackContent(content)
  {
  }

  /**
    A checksum field of any two bytes that are not the checksum costs the frame only, if no
    sync pattern is in its way.
   */
  lemma WrongChecksumLosesOne(size: SizeReader, content: seq<Byte>, x: Byte, y: Byte, next: seq<Byte>, rest: seq<Byte>)
    requires ReadsHexPairs(size) && |content| <= 255 && |next| <= 255
    requires [x, y] != PaddedHex(Checksum(content)) && NoSync(content + [x, y])
    ensures ScanOnce(size, [1, 2] + PaddedHex(|content|) + content + [x, y] + PackContent(next) + rest)
         == Scan(Some(next), rest)
  {
    var n, p := |content|, PackContent(next) + rest;
    PaddedHexOfByte(n);
    var f := [1, 2] + PaddedHex(n) + content + [x, y];
    var b := f + p;
    Associates(f, PackContent(next), rest);
    assert f[1..] == [2] + PaddedHex(n) + (content + [x, y]);
    hide PackContent, Checksum, PaddedHex;
    WrongFieldRejected(size, f, content, x, y, p);
    hide ReadFrame;
    AppendSplits(f, p);
    NoSyncBehindHeader(PaddedHex(n), content + [x, y]);
    ScanGarbageThenFrame(size, f[1..], next, rest);
    Associates(f[1..], PackContent(next), rest);
  }

  lemma WrongFieldRejected(size: SizeReader, f: seq<Byte>, content: seq<Byte>, x: Byte, y: Byte, p: seq<Byte>)
    requires |f| == |content| + 6 && f[0] == 1 && f[1] == 2 && size(f[2], f[3]) == Some(|content|)
    requires f == f[..4] + content + [x, y] && [x, y] != PaddedHex(Checksum(content))
    ensures ReadFrame(size, f + p).Reject?
  {
    hide Checksum, PaddedHex;
    var n := |content|;
    SliceKept(f, p, 4, n + 4);
    SliceKept(f, p, n + 4, n + 6);
    MiddleOf(f[..4], content, [x, y]);
    AppendSplits(f[..4] + content, [x, y]);
  }

  lemma NoSyncBehindHeader(digits: seq<Byte>, g: seq<Byte>)
    requires NoSync(g) && |digits| == 2 && digits[0] >= 48 && digits[1] >= 48
    ensures NoSync([2] + digits + g)
  {
    var all := [2] + digits + g;
    forall i | 0 <= i < |all| - 1
      ensures !(all[i] == 1 && all[i + 1] == 2)
    {
      assert i >= 3 ==> !(g[i - 3] == 1 && g[i - 3 + 1] == 2);
    }
  }

  /**
    A damaged frame whose content no longer sums to its checksum costs one message, that is,
    the next frame is found and what follows it is untouched, iff no sync pattern in the
    received content passes for the beginning of a frame.
   */
  lemma DamagedFrameLosesOneIff(size: SizeReader, content: seq<Byte>, received: seq<Byte>, next: seq<Byte>, rest: seq<Byte>)
    requires ReadsHexPairs(size)
    requires |received| == |content| <= 255 && |next| <= 255
    requires Checksum(received) != Checksum(content)
    ensures var b := Damaged(content, received) + PackContent(next) + rest;
      ScanOnce(size, b) == Scan(Some(next), rest) <==> EmbeddedRejected(size, received, b)
  {
    var f := Damaged(content, received);
    var b := f + PackContent(next) + rest;
    FrameFoundIff(size, f, next, rest);
    DamagedFrameRejected(size, content, received, PackContent(next) + rest);
    Associates(f, PackContent(next), rest);
    assert b[0..] == b;
    DamagedParts(content, received);
    hide PackContent, ScanOnce, Damaged, ReadFrame, Checksum, PaddedHex;
    if EmbeddedRejected(size, received, b) {
      forall j | 0 < j < |f|
        ensures ReadFrame(size, b[j..]).Reject?
      {
        OtherwiseRejected(size, content, received, b, j);
      }
    }
  }

  /** Each sync pattern of the content received, at its place in the buffer `b`, starts a reject. */
  ghost predicate EmbeddedRejected(size: SizeReader, received: seq<Byte>, b: seq<Byte>)
    requires |b| >= |received| + 6
  {
    forall i :: 0 <= i < |received| - 1 && received[i] == 1 && received[i + 1] == 2 ==>
      ReadFrame(size, b[i + 4..]).Reject?
  }

  lemma OtherwiseRejected(size: SizeReader, content: seq<Byte>, received: seq<Byte>, b: seq<Byte>, j: nat)
    requires |received| == |content| <= 255 && Damaged(content, received) < b
    requires 0 < j < |received| + 6 && EmbeddedRejected(size, received, b)
    ensures ReadFrame(size, b[j..]).Reject?
  {
    var f, n := Damaged(content, received), |content|;
    PaddedHexOfByte(n);
    PaddedHexOfByte(Checksum(content));
    assert b[j] == f[j] && (j + 1 < |f| ==> b[j + 1] == f[j + 1]);
    if 4 <= j < n + 3 {
      assert f[j] == received[j - 4] && f[j + 1] == received[j - 4 + 1];
      assert b[j - 4 + 4..] == b[j..];
    }
  }

  /** A condition that needs no buffer: the received content holds no sync pattern. */
  lemma DamagedFrameLosesOne(size: SizeReader, content: seq<Byte>, received: seq<Byte>, next: seq<Byte>, rest: seq<Byte>)
    requires ReadsHexPairs(size)
    requires |received| == |content| <= 255 && |next| <= 255
    requires Checksum(received) != Checksum(content) && NoSync(received)
    ensures ScanOnce(size, Damaged(content, received) + PackContent(next) + rest) == Scan(Some(next), rest)
  {
    DamagedFrameLosesOneIff(size, content, received, next, rest);
    hide PackContent, ScanOnce, Damaged;
    assert forall i :: 0 <= i < |received| - 1 && received[i] == 1 ==> received[i + 1] != 2;
  }

  /**
    Without it more can be lost: received content that begins with a sync pattern and a size
    that has not come yet holds back the next frame.
   */
  lemma HeaderHidesNext(size: SizeReader, content: seq<Byte>, received: seq<Byte>, next: seq<Byte>)
    requires ReadsHexPairs(size)
    requires 4 <= |received| == |content| <= 255 && Checksum(received) != Checksum(content)
    requires received[0] == 1 && received[1] == 2 && size(received[2], received[3]).Some?
    requires |received| + 2 + |next| < size(received[2], received[3]).value
    ensures ScanOnce(size, Damaged(content, received) + PackContent(next))
         == Scan(None, received + PaddedHex(Checksum(content)) + PackContent(next))
  {
    DamagedParts(content, received);
    DamagedFrameRejected(size, content, received, PackContent(next));
    PackLength(next);
    PaddedHexOfByte(|content|);
    hide *;
    var f, cc := [1, 2] + PaddedHex(|content|), PaddedHex(Checksum(content));
    Associates(f, received, cc);
    Associates(f, received + cc, PackContent(next));
    RejectThenHeader(size, f, received + cc + PackContent(next));
  }

  /** So one byte changed from 9 to 1 in `09 02 'f' 'f'` holds back the next frame with it. */
  lemma DamageHidesNext(size: SizeReader, next: seq<Byte>)
    requires ReadsHexPairs(size) && |next| < 249
    ensures var content: seq<Byte> := [9, 2, 102, 102];
      && Checksum(content[0 := 1]) != Checksum(content)
      && ScanOnce(size, Damaged(content, content[0 := 1]) + PackContent(next)).frame.None?
  {
    var content: seq<Byte> := [9, 2, 102, 102];
    OneByteChange(content, 0, 1);
    assert size(HexDigit(255 / 16, false), HexDigit(255 % 16, false)) == Some(255) && HexDigit(15, false) == 102;
    hide *;
    HeaderHidesNext(size, content, content[0 := 1], next);
  }

  /** A header in a rejected frame's content that announces more than has come. */
  lemma RejectThenHeader(size: SizeReader, f: seq<Byte>, h: seq<Byte>)
    requires |f| == 4 && f[1] != 1 && f[2] != 1 && f[3] != 1 && ReadFrame(size, f + h).Reject?
    requires |h| >= 4 && h[0] == 1 && h[1] == 2 && size(h[2], h[3]).Some? && |h| < size(h[2], h[3]).value + 6
    ensures ScanOnce(size, f + h) == Scan(None, h)
  {
    assert ReadFrame(size, h).Starved?;
    AppendSplits(f, h);
    hide ReadFrame;
    ScanSkipsGarbage(size, f[1..], h);
  }

  lemma PackLength(content: seq<Byte>)
    ensures |PackContent(content)| == |content| + 6
  {
  }

  lemma DamagedParts(content: seq<Byte>, received: seq<Byte>)
    requires |content| < 256
    ensures Damaged(content, received) == [1, 2] + PaddedHex(|content|) + received + PaddedHex(Checksum(content))
    ensures |Damaged(content, received)| == |received| + 6
  {
    PaddedHexOfByte(|content|);
    PaddedHexOfByte(Checksum(content));
    hide PaddedHex, Checksum;
    assert PaddedHex(|content|)[..2] == PaddedHex(|content|);
    assert PaddedHex(Checksum(content))[..2] == PaddedHex(Checksum(content));
  }

  lemma DamagedFrameRejected(size: SizeReader, content: seq<Byte>, received: seq<Byte>, t: seq<Byte>)
    requires ReadsHexPairs(size)
    requires |received| == |content| <= 255 && Checksum(received) != Checksum(content)
    ensures ReadFrame(size, Damaged(content, received) + t).Reject?
  {
    var n := |content|;
    PaddedHexOfByte(n);
    PaddedHexOfByte(Checksum(content));
    var b := Damaged(content, received) + t;
    assert b[4..n + 4] == received;
    assert b[n + 4..n + 6] == PaddedHex(Checksum(content));
    HexPairsDiffer(Checksum(content), Checksum(received));
  }

  lemma HexPairsDiffer(a: nat, b: nat)
    requires a < 256 && b < 256 && a != b
    ensures PaddedHex(a) != PaddedHex(b)
  {
    PaddedHexOfByte(a);
    PaddedHexOfByte(b);
    assert PaddedHex(a)[0] == PaddedHex(b)[0] ==> a / 16 == b / 16;
  }

  /**
    One content byte changed in transit, other than between 00 and FF, costs one message, if
    the altered content holds no sync pattern.
   */
  lemma OneByteDamageLosesOne(size: SizeReader, content: seq<Byte>, i: nat, b: Byte, next: seq<Byte>, rest: seq<Byte>)
    requires ReadsHexPairs(size)
    requires i < |content| <= 255 && |next| <= 255
    requires b != content[i] && {b, content[i]} != {0, 255}
    requires NoSync(content[i := b])
    ensures ScanOnce(size, Damaged(content, content[i := b]) + PackContent(next) + rest) == Scan(Some(next), rest)
  {
    OneByteChange(content, i, b);
    DamagedFrameLosesOne(size, content, content[i := b], next, rest);
  }
}
