/** The NxtAccess USB layer: the byte-stuffing framer behind nxtusb_send,
    its 5-byte staging buffer, and the error-message table. */
module NxtUsb {

  import opened Wrappers
  import opened Bytes

  /** Prefixes the byte that follows it, so that it is taken literally. */
  const ESC: byte := 0x1b
  /** Ends a frame. */
  const EOT: byte := 0x04
  /** The size of the staging buffer, and so of every full chunk. */
  const USB_BUFLEN: nat := 5

  // ---------------------------------------------------------------------
  // Framing as values
  // ---------------------------------------------------------------------

  /** The bytes that must be escaped inside a frame. */
  predicate IsSpecial(b: byte)
  {
    b == ESC || b == EOT
  }

  /** How one payload byte goes on the wire: an ESC in front of a special
      byte, the byte itself otherwise. */
  function Escape(b: byte): (r: seq<byte>)
    ensures 1 <= |r| <= 2 && r[|r| - 1] == b
    ensures |r| == 2 <==> IsSpecial(b)
    ensures |r| == 2 ==> r[0] == ESC
  {
    if IsSpecial(b) then [ESC, b] else [b]
  }

  /** The escaped payload, without the frame end. */
  function StuffBody(p: seq<byte>): seq<byte>
  {
    if p == [] then [] else Escape(p[0]) + StuffBody(p[1..])
  }

  /** The frame nxtusb_send emits for payload `p`: each byte escaped, then one EOT. */
  function Stuff(p: seq<byte>): seq<byte>
  {
    StuffBody(p) + [EOT]
  }

  /** The receiving side of the framing: an ESC takes the next byte
      literally, an unescaped EOT ends the frame, anything else is payload.
      None when the input ends before the frame does. */
  function Unstuff(s: seq<byte>): Option<seq<byte>>
    decreases |s|
  {
    if s == [] then None
    else if s[0] == EOT then Some([])
    else if s[0] == ESC then
      if |s| < 2 then None
      else match Unstuff(s[2..])
        case None => None
        case Some(rest) => Some([s[1]] + rest)
    else match Unstuff(s[1..])
      case None => None
      case Some(rest) => Some([s[0]] + rest)
  }

  /** Escaping a payload one more byte at a time, as the send loop does. */
  lemma {:induction false} StuffBodySnoc(p: seq<byte>, b: byte)
    ensures StuffBody(p + [b]) == StuffBody(p) + Escape(b)
  {
    if p == [] {
      assert [] + [b] == [b];
    } else {
      assert (p + [b])[1..] == p[1..] + [b];
      StuffBodySnoc(p[1..], b);
    }
  }

  /** The number of bytes on the wire: one per payload byte, one more per
      special byte, and the frame end. */
  lemma {:induction false} StuffLength(p: seq<byte>)
    ensures |Stuff(p)| == |p| + multiset(p)[ESC] + multiset(p)[EOT] + 1
  {
    StuffBodyLength(p);
  }

  lemma {:induction false} StuffBodyLength(p: seq<byte>)
    ensures |StuffBody(p)| == |p| + multiset(p)[ESC] + multiset(p)[EOT]
  {
    if p != [] {
      assert p == [p[0]] + p[1..];
      assert multiset(p) == multiset{p[0]} + multiset(p[1..]);
      StuffBodyLength(p[1..]);
    }
  }

  /** Decoding the wire form of one byte gives back that byte. */
  lemma UnstuffEscape(b: byte, t: seq<byte>, q: seq<byte>)
    requires Unstuff(t) == Some(q)
    ensures Unstuff(Escape(b) + t) == Some([b] + q)
  {
    var s := Escape(b) + t;
    if IsSpecial(b) {
      assert s[0] == ESC && s[1] == b && s[2..] == t;
    } else {
      assert s[0] == b && s[1..] == t;
    }
  }

  /** A frame decodes to its payload, whatever follows the frame: the
      receiver stops exactly at the EOT that nxtusb_send appends. */
  lemma {:induction false} StuffRoundTrip(p: seq<byte>, rest: seq<byte>)
    ensures Unstuff(Stuff(p) + rest) == Some(p)
  {
    if p == [] {
      assert Stuff(p) + rest == [EOT] + rest;
    } else {
      assert Stuff(p) + rest == Escape(p[0]) + (Stuff(p[1..]) + rest);
      StuffRoundTrip(p[1..], rest);
      UnstuffEscape(p[0], Stuff(p[1..]) + rest, p[1..]);
      assert [p[0]] + p[1..] == p;
    }
  }

  /** The chunks of a log, joined in order. */
  function Flatten(chunks: seq<seq<byte>>): seq<byte>
  {
    if chunks == [] then []
    else Flatten(chunks[..|chunks| - 1]) + chunks[|chunks| - 1]
  }

  /** Joining one more chunk. */
  lemma FlattenSnoc(chunks: seq<seq<byte>>, last: seq<byte>)
    ensures Flatten(chunks + [last]) == Flatten(chunks) + last
  {
    assert (chunks + [last])[..|chunks|] == chunks;
  }

  /** Every chunk of the log fills the staging buffer. */
  predicate AllFull(chunks: seq<seq<byte>>)
  {
    forall k :: 0 <= k < |chunks| ==> |chunks[k]| == USB_BUFLEN
  }

  /** `after` is the log `before` followed by the chunks of one frame: they
      join to `frame`, all but the last fill the staging buffer, and the last
      holds 1 to 5 bytes and ends with EOT. */
  predicate SentAsFrame(before: seq<seq<byte>>, after: seq<seq<byte>>, frame: seq<byte>)
  {
    && |after| > |before| && after[..|before|] == before
    && Flatten(after[|before|..]) == frame
    && (forall k :: |before| <= k < |after| - 1 ==> |after[k]| == USB_BUFLEN)
    && 1 <= |after[|after| - 1]| <= USB_BUFLEN
    && after[|after| - 1][|after[|after| - 1]| - 1] == EOT
  }

  lemma {:induction false} FlattenFullLength(chunks: seq<seq<byte>>)
    requires AllFull(chunks)
    ensures |Flatten(chunks)| == USB_BUFLEN * |chunks|
  {
    if chunks != [] {
      FlattenFullLength(chunks[..|chunks| - 1]);
    }
  }

  /** A frame goes out in as few transfers as the 5-byte buffer allows:
      its length divided by 5, rounded up. */
  lemma TransferCount(before: seq<seq<byte>>, after: seq<seq<byte>>, frame: seq<byte>)
    requires SentAsFrame(before, after, frame)
    ensures |after| - |before| == (|frame| + USB_BUFLEN - 1) / USB_BUFLEN
  {
    var c := after[|before|..];
    var init := c[..|c| - 1];
    forall k | 0 <= k < |init|
      ensures |init[k]| == USB_BUFLEN
    {
      assert init[k] == after[|before| + k];
    }
    FlattenFullLength(init);
    assert |frame| == USB_BUFLEN * (|c| - 1) + |c[|c| - 1]|;
  }

  /** What the last send_raw of nxtusb_send leaves in the log: after the
      earlier entries, the full chunks and then the final one, which
      together make up the frame. */
  lemma FinishLog(log: seq<seq<byte>>, chunks: seq<seq<byte>>, last: seq<byte>, sent: seq<seq<byte>>,
                  frame: seq<byte>)
    requires sent == log + chunks + [last] && AllFull(chunks)
    requires Flatten(chunks) + last == frame
    requires 1 <= |last| <= USB_BUFLEN && last[|last| - 1] == EOT
    ensures SentAsFrame(log, sent, frame)
  {
    assert sent[|log|..] == chunks + [last];
    FlattenSnoc(chunks, last);
    forall k | |log| <= k < |sent| - 1
      ensures |sent[k]| == USB_BUFLEN
    {
      assert sent[k] == chunks[k - |log|];
    }
  }

  // ---------------------------------------------------------------------
  // Errors
  // ---------------------------------------------------------------------

  /** nxterr_t. */
  datatype NxtErr = Success | Samba | NotFound | LibUsb

  /** The enumerator values of nxterr_t. */
  function Code(e: NxtErr): (c: nat)
    ensures c < |ErrMsg|
    ensures e == Success <==> c == 0
    ensures e == Samba <==> c == 1
    ensures e == NotFound <==> c == 2
    ensures e == LibUsb <==> c == 3
  {
    match e
    case Success => 0
    case Samba => 1
    case NotFound => 2
    case LibUsb => 3
  }

  const ErrMsg: seq<string> := ["Success", "The NXT uses SAM-BA", "NXT not found", "USB access error"]

  /** nxtusb_geterr: the table entry at the error's code. */
  function GetErr(e: NxtErr): (msg: string)
    ensures e == Success ==> msg == "Success"
    ensures e == Samba ==> msg == "The NXT uses SAM-BA"
    ensures e == NotFound ==> msg == "NXT not found"
    ensures e == LibUsb ==> msg == "USB access error"
  {
    ErrMsg[Code(e)]
  }

  /** Different errors read differently. */
  lemma GetErrInjective(e1: NxtErr, e2: NxtErr)
    ensures GetErr(e1) == GetErr(e2) ==> e1 == e2
  {
  }

  // ---------------------------------------------------------------------
  // The device
  // ---------------------------------------------------------------------

  /** struct nxtusb: the staging buffer, with the chunks handed to the
      bulk endpoint recorded in `sent` in place of the libusb handle. */
  class Nxt {
    const buffer: array<byte>
    ghost var sent: seq<seq<byte>>

    ghost predicate Valid()
      reads this
    {
      buffer.Length == USB_BUFLEN
    }

    /** The allocation nxtusb_new makes for the staging buffer. */
    constructor ()
      ensures Valid() && fresh(buffer) && sent == []
    {
      buffer := new byte[USB_BUFLEN](_ => 0);
      sent := [];
    }

    /** send_raw: hands the first `n` staged bytes to the bulk endpoint. */
    method SendRaw(n: nat)
      requires n <= buffer.Length
      modifies this
      ensures sent == old(sent) + [buffer[..n]]
    {
      sent := sent + [buffer[..n]];
    }

    /** chunk: flushes the buffer and empties it exactly when the fill is a
        nonzero multiple of the buffer size; otherwise nothing happens. */
    method Chunk(fill: nat) returns (fill': nat)
      requires Valid() && fill <= USB_BUFLEN
      modifies this
      ensures fill % USB_BUFLEN == 0 && fill != 0 ==> fill' == 0 && sent == old(sent) + [buffer[..fill]]
      ensures !(fill % USB_BUFLEN == 0 && fill != 0) ==> fill' == fill && sent == old(sent)
      ensures fill' < USB_BUFLEN
    {
      fill' := fill;
      if fill % USB_BUFLEN == 0 && fill != 0 {
        SendRaw(fill);
        fill' := 0;
      }
    }

    /** Stages one byte at `fill` and lets chunk flush a full buffer: the
        staged bytes grow by `b`, and when that fills the buffer they go out
        as one chunk. */
    method Put(fill: nat, b: byte) returns (fill': nat)
      requires Valid() && fill < USB_BUFLEN
      modifies this, buffer
      ensures fill' < USB_BUFLEN
      ensures fill + 1 < USB_BUFLEN ==>
                fill' == fill + 1 && sent == old(sent) && buffer[..fill'] == old(buffer[..fill]) + [b]
      ensures fill + 1 == USB_BUFLEN ==>
                fill' == 0 && sent == old(sent) + [old(buffer[..fill]) + [b]]
    {
      buffer[fill] := b;
      assert buffer[..fill + 1] == old(buffer[..fill]) + [b];
      fill' := Chunk(fill + 1);
    }

    /** nxtusb_send: the chunks sent make up the frame of the payload; all
        but the last are full, and the last carries 1 to 5 bytes ending in
        EOT. The result is always success. */
    method Send(payload: seq<byte>) returns (err: NxtErr)
      requires Valid()
      requires |payload| < 0x1_0000_0000
      modifies this, buffer
      ensures err == Success
      ensures SentAsFrame(old(sent), sent, Stuff(payload))
    {
      ghost var log := sent;
      ghost var chunks: seq<seq<byte>> := [];
      var i: nat := 0;
      var j: nat := 0;
      while i < |payload|
        invariant i <= |payload| && j < USB_BUFLEN
        invariant sent == log + chunks && AllFull(chunks)
        invariant Flatten(chunks) + buffer[..j] == StuffBody(payload[..i])
      {
        j, chunks := Emit(j, payload[i], log, chunks, payload[..i]);
        assert payload[..i + 1] == payload[..i] + [payload[i]];
        i := i + 1;
      }
      assert payload[..i] == payload;
      Finish(j, log, chunks, payload);
      err := Success;
    }

    /** The end of nxtusb_send: the EOT closes the frame in the staging
        buffer, and the buffer goes out as the last chunk. */
    method Finish(fill: nat, ghost log: seq<seq<byte>>, ghost chunks: seq<seq<byte>>, ghost payload: seq<byte>)
      requires Valid() && fill < USB_BUFLEN
      requires sent == log + chunks && AllFull(chunks)
      requires Flatten(chunks) + buffer[..fill] == StuffBody(payload)
      modifies this, buffer
      ensures SentAsFrame(log, sent, Stuff(payload))
    {
      buffer[fill] := EOT;
      assert buffer[..fill + 1] == buffer[..fill] + [EOT];
      SendRaw(fill + 1);
      FinishLog(log, chunks, buffer[..fill + 1], sent, Stuff(payload));
    }

    /** One turn of the send loop: the payload byte, escaped when special,
        is staged behind the bytes of `done`. */
    method Emit(fill: nat, val: byte, ghost log: seq<seq<byte>>, ghost chunks: seq<seq<byte>>,
                ghost done: seq<byte>)
      returns (fill': nat, ghost chunks': seq<seq<byte>>)
      requires Valid() && fill < USB_BUFLEN
      requires sent == log + chunks && AllFull(chunks)
      requires Flatten(chunks) + buffer[..fill] == StuffBody(done)
      modifies this, buffer
      ensures fill' < USB_BUFLEN
      ensures sent == log + chunks' && AllFull(chunks')
      ensures Flatten(chunks') + buffer[..fill'] == StuffBody(done + [val])
    {
      fill', chunks' := fill, chunks;
      if val == ESC || val == EOT {
        fill', chunks' := Stage(fill', ESC, log, chunks');
      }
      fill', chunks' := Stage(fill', val, log, chunks');
      StuffBodySnoc(done, val);
    }

    /** Put, with the chunks flushed so far tracked next to the log. */
    method Stage(fill: nat, b: byte, ghost log: seq<seq<byte>>, ghost chunks: seq<seq<byte>>)
      returns (fill': nat, ghost chunks': seq<seq<byte>>)
      requires Valid() && fill < USB_BUFLEN
      requires sent == log + chunks && AllFull(chunks)
      modifies this, buffer
      ensures fill' < USB_BUFLEN
      ensures sent == log + chunks' && AllFull(chunks')
      ensures Flatten(chunks') + buffer[..fill'] == Flatten(chunks) + old(buffer[..fill]) + [b]
    {
      fill' := Put(fill, b);
      if fill' == 0 {
        chunks' := chunks + [old(buffer[..fill]) + [b]];
        assert chunks'[..|chunks'| - 1] == chunks;
        assert sent == log + chunks';
      } else {
        chunks' := chunks;
      }
    }
  }
}
