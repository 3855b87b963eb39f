/** The image transfer: a sender that appends a marker, a receiver that looks for it at the end of each chunk. */
module ImageTransfer {

  type Octet = v: int | 0 <= v < 256

  /** The bytes of "EOF". */
  const MARKER: seq<Octet> := [69, 79, 70]

  const SEND_BUFFER := 4096
  const RECEIVE_BUFFER := 1024

  /** Writes the sender makes before the marker. */
  function FileWrites(length: nat): nat { (length + SEND_BUFFER - 1) / SEND_BUFFER }

  /** The part of the file sent by the first n writes. */
  function SentBy(file: seq<Octet>, n: nat): seq<Octet> {
    if SEND_BUFFER * n < |file| then file[..SEND_BUFFER * n] else file
  }

  /**
   * Sends the file and the marker. writeFails tells which write calls fail; one that succeeds takes its whole
   * buffer. A failure ends the transfer after the buffers already written.
   */
  method SendZipFile(file: seq<Octet>, writeFails: nat -> bool) returns (complete: bool, sent: seq<Octet>)
    ensures complete <==> forall k: nat :: k <= FileWrites(|file|) ==> !writeFails(k)
    ensures complete ==> sent == file + MARKER
    ensures !complete ==> exists k: nat :: k <= FileWrites(|file|) && writeFails(k) &&
                                           (forall j: nat :: j < k ==> !writeFails(j)) && sent == SentBy(file, k)
    ensures !complete ==> sent <= file && (|sent| < |file| ==> |sent| % 4096 == 0)
  {
    sent := [];
    var position, writes := 0, 0;
    while position < |file|
      invariant 0 <= position <= |file|
      invariant position == SEND_BUFFER * writes || (position == |file| && SEND_BUFFER * (writes - 1) < |file| <= SEND_BUFFER * writes)
      invariant sent == file[..position]
      invariant forall j: nat :: j < writes ==> !writeFails(j)
    {
      var bytes_read := if |file| - position < SEND_BUFFER then |file| - position else SEND_BUFFER;
      var buffer := file[position..position + bytes_read];
      assert file[..position + bytes_read] == file[..position] + buffer;
      if writeFails(writes) {
        return false, sent;
      }
      sent := sent + buffer;
      position := position + bytes_read;
      writes := writes + 1;
    }
    assert writes == FileWrites(|file|);
    assert SentBy(file, writes) == file;
    if writeFails(writes) {
      return false, sent;
    }
    return true, sent + MARKER;
  }

  predicate MarkerAt(s: seq<Octet>, i: int) {
    0 <= i <= |s| - 3 && s[i] == MARKER[0] && s[i + 1] == MARKER[1] && s[i + 2] == MARKER[2]
  }

  predicate EndsWithMarker(chunk: seq<Octet>) { MarkerAt(chunk, |chunk| - 3) }

  /** What the receiver writes to its file, given the chunks that recv returns until the connection closes. */
  function Received(chunks: seq<seq<Octet>>): seq<Octet> {
    if chunks == [] then []
    else if EndsWithMarker(chunks[0]) then chunks[0][..|chunks[0]| - 3]
    else chunks[0] + Received(chunks[1..])
  }

  /** Every chunk fills part of the receive buffer and is long enough to be compared with the marker. */
  ghost predicate Receivable(chunks: seq<seq<Octet>>) {
    forall n :: 0 <= n < |chunks| ==> 3 <= |chunks[n]| <= RECEIVE_BUFFER
  }

  function Joined(chunks: seq<seq<Octet>>): seq<Octet> {
    if chunks == [] then [] else Joined(chunks[..|chunks| - 1]) + chunks[|chunks| - 1]
  }

  /**
   * The comparison stays inside the receive buffer: until the receiver stops, every chunk is as long as the marker.
   * What recv would return after that does not matter.
   */
  ghost predicate InsideBuffer(chunks: seq<seq<Octet>>) {
    chunks != [] ==> 3 <= |chunks[0]| <= RECEIVE_BUFFER && (EndsWithMarker(chunks[0]) || InsideBuffer(chunks[1..]))
  }

  lemma {:induction false} ReceivableIsInside(chunks: seq<seq<Octet>>)
    requires Receivable(chunks)
    ensures InsideBuffer(chunks)
  {
    if chunks != [] {
      assert Receivable(chunks[1..]) by {
        assert forall n :: 0 <= n < |chunks[1..]| ==> chunks[1..][n] == chunks[n + 1];
      }
      ReceivableIsInside(chunks[1..]);
    }
  }

  method ReceiveCompressedFile(chunks: seq<seq<Octet>>) returns (written: seq<Octet>, totalBytesReceived: nat)
    requires InsideBuffer(chunks)
    ensures written == Received(chunks)
    ensures if exists n :: 0 <= n < |chunks| && EndsWithMarker(chunks[n]) then totalBytesReceived == |written| + 3
            else totalBytesReceived == |written|
  {
    written, totalBytesReceived := [], 0;
    for i := 0 to |chunks|
      invariant written + Received(chunks[i..]) == Received(chunks)
      invariant InsideBuffer(chunks[i..])
      invariant totalBytesReceived == |written|
      invariant forall n :: 0 <= n < i ==> !EndsWithMarker(chunks[n])
    {
      var buffer := chunks[i];
      var bytesRead := |buffer|;
      assert chunks[i..][0] == buffer && chunks[i..][1..] == chunks[i + 1..];
      if EndsWithMarker(buffer) {
        return written + buffer[..bytesRead - 3], totalBytesReceived + bytesRead;
      }
      written := written + buffer;
      totalBytesReceived := totalBytesReceived + bytesRead;
    }
  }

  lemma {:induction false} JoinedConcat(xs: seq<seq<Octet>>, ys: seq<seq<Octet>>)
    ensures Joined(xs + ys) == Joined(xs) + Joined(ys)
  {
    if ys == [] {
      assert xs + ys == xs;
    } else {
      var n := |ys| - 1;
      assert (xs + ys)[..|xs + ys| - 1] == xs + ys[..n];
      JoinedConcat(xs, ys[..n]);
    }
  }

  lemma JoinedOne(chunk: seq<Octet>)
    ensures Joined([chunk]) == chunk
  {
    var chunks := [chunk];
    assert Joined(chunks) == Joined(chunks[..0]) + chunk;
  }

  lemma JoinedFromFront(chunks: seq<seq<Octet>>)
    requires chunks != []
    ensures Joined(chunks) == chunks[0] + Joined(chunks[1..])
  {
    assert chunks == [chunks[0]] + chunks[1..];
    JoinedConcat([chunks[0]], chunks[1..]);
    JoinedOne(chunks[0]);
  }

  /** The chunk at which the receiver stops. */
  ghost predicate StopsAt(chunks: seq<seq<Octet>>, k: nat) {
    && k < |chunks| && EndsWithMarker(chunks[k])
    && forall n :: 0 <= n < k ==> !EndsWithMarker(chunks[n])
  }

  lemma {:induction false} ReceivedUpToStop(chunks: seq<seq<Octet>>, k: nat)
    requires StopsAt(chunks, k)
    ensures EndsWithMarker(Joined(chunks[..k + 1]))
    ensures Received(chunks) == Joined(chunks[..k + 1])[..|Joined(chunks[..k + 1])| - 3]
    decreases |chunks|
  {
    JoinedFromFront(chunks[..k + 1]);
    if k == 0 {
      assert chunks[..1][1..] == [];
    } else {
      assert StopsAt(chunks[1..], k - 1) by {
        assert forall n :: 0 <= n < k ==> chunks[1..][n] == chunks[n + 1];
      }
      ReceivedUpToStop(chunks[1..], k - 1);
      assert chunks[..k + 1][1..] == chunks[1..][..k];
    }
  }

  lemma {:induction false} FirstStop(chunks: seq<seq<Octet>>, n: nat) returns (k: nat)
    requires n < |chunks| && EndsWithMarker(chunks[n])
    ensures k <= n && StopsAt(chunks, k)
  {
    if m: nat :| m < n && EndsWithMarker(chunks[m]) {
      k := FirstStop(chunks, m);
    } else {
      k := n;
    }
  }

  /** The stream the sender produced, cut up by the network in any way the receiver can handle. */
  ghost predicate Fragments(chunks: seq<seq<Octet>>, payload: seq<Octet>) {
    Receivable(chunks) && Joined(chunks) == payload + MARKER
  }

  lemma LastChunkEndsWithMarker(chunks: seq<seq<Octet>>, payload: seq<Octet>)
    requires Fragments(chunks, payload)
    ensures chunks != [] && EndsWithMarker(chunks[|chunks| - 1])
  {
    var last := chunks[|chunks| - 1];
    var before := Joined(chunks[..|chunks| - 1]);
    var all := before + last;
    assert all == payload + MARKER;
    assert EndsWithMarker(all);
    assert forall j :: 0 <= j < |last| ==> all[|before| + j] == last[j];
  }

  /** Cutting the stream after the first n chunks. */
  lemma SplitAfter(chunks: seq<seq<Octet>>, n: nat)
    requires n <= |chunks|
    ensures Joined(chunks) == Joined(chunks[..n]) + Joined(chunks[n..])
  {
    assert chunks == chunks[..n] + chunks[n..];
    JoinedConcat(chunks[..n], chunks[n..]);
  }

  lemma {:induction false} RestIsLong(chunks: seq<seq<Octet>>)
    requires Receivable(chunks) && chunks != []
    ensures |Joined(chunks)| >= 3
  {
  }

  /** However the stream is cut up, the receiver writes a prefix of the payload. */
  lemma ReceivesPrefix(chunks: seq<seq<Octet>>, payload: seq<Octet>)
    requires Fragments(chunks, payload)
    ensures Received(chunks) <= payload
  {
    ReceivesUpToStop(chunks, payload);
  }

  /** Some chunk before the last ends with the marker. */
  ghost predicate StopsEarly(chunks: seq<seq<Octet>>) {
    exists n :: 0 <= n < |chunks| - 1 && EndsWithMarker(chunks[n])
  }

  /** The receiver writes the whole payload exactly when no chunk before the last ends with the marker. */
  lemma ReceivesAllIffNoEarlyStop(chunks: seq<seq<Octet>>, payload: seq<Octet>)
    requires Fragments(chunks, payload)
    ensures Received(chunks) == payload <==> !StopsEarly(chunks)
  {
    ReceivesUpToStop(chunks, payload);
  }

  lemma ReceivesUpToStop(chunks: seq<seq<Octet>>, payload: seq<Octet>)
    requires Fragments(chunks, payload)
    ensures Received(chunks) <= payload
    ensures |Received(chunks)| < |payload| <==> StopsEarly(chunks)
  {
    LastChunkEndsWithMarker(chunks, payload);
    var k := FirstStop(chunks, |chunks| - 1);
    ReceivedUpToStop(chunks, k);
    if k < |chunks| - 1 {
      HeadIsInPayload(chunks, payload, k + 1);
    } else {
      assert chunks[..k + 1] == chunks;
      assert Joined(chunks)[..|Joined(chunks)| - 3] == payload;
    }
  }

  /** What comes before a later chunk lies wholly inside the payload. */
  lemma HeadIsInPayload(chunks: seq<seq<Octet>>, payload: seq<Octet>, n: nat)
    requires Fragments(chunks, payload) && n < |chunks|
    ensures Joined(chunks[..n]) <= payload
  {
    SplitAfter(chunks, n);
    RestIsLong(chunks[n..]);
    var head := Joined(chunks[..n]);
    assert head == (payload + MARKER)[..|head|] == payload[..|head|];
  }

  lemma {:induction false} ReceivedIsPrefix(chunks: seq<seq<Octet>>)
    ensures Received(chunks) <= Joined(chunks)
  {
    if chunks != [] {
      JoinedFromFront(chunks);
      if !EndsWithMarker(chunks[0]) {
        ReceivedIsPrefix(chunks[1..]);
      }
    }
  }

  /** When no chunk ends with the marker the receiver writes all it gets until the connection closes. */
  lemma {:induction false} ReceivedWithoutMarker(chunks: seq<seq<Octet>>)
    requires forall n :: 0 <= n < |chunks| ==> !EndsWithMarker(chunks[n])
    ensures Received(chunks) == Joined(chunks)
  {
    if chunks != [] {
      JoinedFromFront(chunks);
      ReceivedWithoutMarker(chunks[1..]);
    }
  }

  /** A chunk is taken for the last one exactly when its last three bytes are those of "EOF". */
  lemma EndsWithMarkerMeans(chunk: seq<Octet>)
    ensures EndsWithMarker(chunk) <==>
            |chunk| >= 3 && chunk[|chunk| - 3..] == ['E' as int, 'O' as int, 'F' as int]
  {
    if |chunk| >= 3 {
      assert chunk[|chunk| - 3..] == [chunk[|chunk| - 3], chunk[|chunk| - 2], chunk[|chunk| - 1]];
    }
  }

  /** A transfer the sender gave up before the marker: the receiver still writes nothing but the start of the file. */
  lemma InterruptedTransfer(chunks: seq<seq<Octet>>, file: seq<Octet>, writes: nat)
    requires InsideBuffer(chunks) && Joined(chunks) == SentBy(file, writes)
    ensures Received(chunks) <= file
    ensures Received(chunks) == file ==> SentBy(file, writes) == file
  {
    ReceivedIsPrefix(chunks);
  }

  ghost predicate ContainsMarker(payload: seq<Octet>) {
    exists i :: MarkerAt(payload, i)
  }

  /** One way to cut a stream of at least 3 bytes into receivable chunks. */
  function Cut(stream: seq<Octet>): (chunks: seq<seq<Octet>>)
    requires |stream| >= 3
  {
    if |stream| <= RECEIVE_BUFFER then [stream] else [stream[..RECEIVE_BUFFER - 3]] + Cut(stream[RECEIVE_BUFFER - 3..])
  }

  lemma {:induction false} CutIsReceivable(stream: seq<Octet>)
    requires |stream| >= 3
    ensures Receivable(Cut(stream)) && Joined(Cut(stream)) == stream && Cut(stream) != []
    ensures var last := Cut(stream)[|Cut(stream)| - 1]; last == stream[|stream| - |last|..]
  {
    if |stream| > RECEIVE_BUFFER {
      var first, rest := stream[..RECEIVE_BUFFER - 3], stream[RECEIVE_BUFFER - 3..];
      CutIsReceivable(rest);
      JoinedFromFront(Cut(stream));
      assert Cut(stream)[1..] == Cut(rest);
      assert Cut(stream)[|Cut(stream)| - 1] == Cut(rest)[|Cut(rest)| - 1];
    } else {
      JoinedOne(stream);
    }
  }

  lemma CutKeepsMarkerAtEnd(stream: seq<Octet>)
    requires EndsWithMarker(stream)
    ensures Cut(stream) != [] && EndsWithMarker(Cut(stream)[|Cut(stream)| - 1])
  {
    CutIsReceivable(stream);
  }

  lemma Appended(xs: seq<seq<Octet>>, ys: seq<seq<Octet>>)
    requires Receivable(xs) && Receivable(ys)
    requires xs != [] && ys != [] && EndsWithMarker(xs[|xs| - 1])
    ensures Receivable(xs + ys) && StopsEarly(xs + ys)
  {
    assert (xs + ys)[|xs| - 1] == xs[|xs| - 1];
  }

  /** A marker inside the payload can be cut so that the receiver stops there. */
  lemma MarkerInPayloadCanTruncate(payload: seq<Octet>, i: nat) returns (chunks: seq<seq<Octet>>)
    requires MarkerAt(payload, i)
    ensures Fragments(chunks, payload) && Received(chunks) != payload
  {
    var head, tail := payload[..i + 3], payload[i + 3..] + MARKER;
    assert head + tail == payload + MARKER && EndsWithMarker(head);
    hide Cut, Receivable, StopsEarly, Received, Joined;
    CutIsReceivable(head);
    CutIsReceivable(tail);
    CutKeepsMarkerAtEnd(head);
    chunks := Cut(head) + Cut(tail);
    JoinedConcat(Cut(head), Cut(tail));
    Appended(Cut(head), Cut(tail));
    ReceivesAllIffNoEarlyStop(chunks, payload);
  }

  /**
   * The framing is safe for exactly the payloads that do not contain the marker: for those, and only those, the
   * receiver reconstructs the payload however the network cuts up the stream.
   */
  lemma FaithfulIffNoMarkerInside(payload: seq<Octet>)
    ensures (forall chunks :: Fragments(chunks, payload) ==> Received(chunks) == payload) <==> !ContainsMarker(payload)
  {
    if ContainsMarker(payload) {
      var i :| MarkerAt(payload, i);
      var chunks := MarkerInPayloadCanTruncate(payload, i);
    } else {
      forall chunks | Fragments(chunks, payload)
        ensures Received(chunks) == payload
      {
        ReceivesAllIffNoEarlyStop(chunks, payload);
        if StopsEarly(chunks) {
          var n :| 0 <= n < |chunks| - 1 && EndsWithMarker(chunks[n]);
          NoEarlyStop(chunks, payload, n);
        }
      }
    }
  }

  lemma NoEarlyStop(chunks: seq<seq<Octet>>, payload: seq<Octet>, n: nat)
    requires Fragments(chunks, payload) && n < |chunks| - 1 && EndsWithMarker(chunks[n])
    ensures ContainsMarker(payload)
  {
    HeadIsInPayload(chunks, payload, n + 1);
    var before, chunk := Joined(chunks[..n]), chunks[n];
    assert chunks[..n + 1][..n] == chunks[..n];
    assert forall j :: 0 <= j < |chunk| ==> (before + chunk)[|before| + j] == chunk[j];
    assert MarkerAt(payload, |before| + |chunk| - 3);
  }
}
