/** Serving firmware image segments: request checking, padding past the image end, and reassembly by the device. */
module Firmware {
  import opened Bytes
  import opened Wrappers

  const BASELINE := 32
  const INSTANCE_MAX := 32

  type Rc = byte
  const SUCCESS: Rc := 0
  const INVALID_DATA: Rc := 2
  const INVALID_LENGTH: Rc := 3
  const DATA_OUT_OF_RANGE: Rc := 0x82
  const INVALID_TRANSFER_LENGTH: Rc := 0x83

  datatype Request = Request(offset: u32, length: u32)

  /** The specification: an image of `size` bytes, followed by up to 32 zeros. */
  function Verdict(req: Request, maxTransfer: u32, size: u32): Rc {
    if !(BASELINE <= req.length <= maxTransfer) then INVALID_TRANSFER_LENGTH
    else if req.offset + req.length > size + BASELINE then DATA_OUT_OF_RANGE
    else SUCCESS
  }

  function Zeros(n: nat): (s: seq<byte>)
    ensures |s| == n && forall i | 0 <= i < n :: s[i] == 0
  {
    seq(n, _ => 0)
  }

  /** What a request asks of an image: its bytes there, and zeros past its end. */
  function Window(image: seq<byte>, req: Request): (w: seq<byte>)
    requires req.offset + req.length <= |image| + BASELINE
    ensures |w| == req.length
    ensures forall i | 0 <= i < req.length ::
              w[i] == if req.offset + i < |image| then image[req.offset + i] else 0
  {
    (image + Zeros(BASELINE))[req.offset..req.offset + req.length]
  }

  function Padding(req: Request, size: u32): nat {
    if req.offset + req.length > size then req.offset + req.length - size else 0
  }

  /** An accepted request starts inside the image, or at its end, and is padded by at most 32 and its length:
      where the image ends before the request does, by exactly what is missing. */
  lemma AcceptedIsBounded(req: Request, maxTransfer: u32, size: u32)
    requires Verdict(req, maxTransfer, size) == SUCCESS
    ensures req.offset <= size && Padding(req, size) <= BASELINE && Padding(req, size) <= req.length
    ensures req.length - Padding(req, size) == if req.length <= size - req.offset then req.length else size - req.offset
  {
  }

  /** The image from the request's offset on, cut where the image ends, then zeros: that is the window. */
  lemma PaddedPortionIsWindow(image: seq<byte>, req: Request, maxTransfer: u32, portion: seq<byte>)
    requires |image| <= U32_MAX && Verdict(req, maxTransfer, |image|) == SUCCESS
    requires var padding := Padding(req, |image|);
             |portion| >= req.length - padding && portion[..req.length - padding] <= image[req.offset..]
    ensures var padding := Padding(req, |image|);
            portion[..req.length - padding] + Zeros(padding) == Window(image, req)
  {
    var kept := req.length - Padding(req, |image|);
    forall i | 0 <= i < kept ensures portion[i] == image[req.offset + i] {
      assert portion[..kept][i] == image[req.offset..][i];
    }
  }

  // ----- the code -----

  class FirmwareUpdate {
    var maximumTransferSize: u32
    var componentImageSize: u32
    var requested: Request

    constructor ()
      ensures maximumTransferSize == 0 && componentImageSize == 0 && requested == Request(0, 0)
    {
      maximumTransferSize, componentImageSize, requested := 0, 0, Request(0, 0);
    }

    method InitializeFwUpdate(maxTransferSize: u32, compImageSize: u32)
      modifies this
      ensures maximumTransferSize == maxTransferSize && componentImageSize == compImageSize
      ensures requested == old(requested)
    {
      maximumTransferSize := maxTransferSize;
      componentImageSize := compImageSize;
    }

    method CheckValidity() returns (rc: Rc)
      ensures rc == Verdict(requested, maximumTransferSize, componentImageSize)
    {
      if !(BASELINE <= requested.length && requested.length <= maximumTransferSize) {
        return INVALID_TRANSFER_LENGTH;
      }
      var requestedPayload := requested.length + requested.offset;
      var maxPayload := componentImageSize + BASELINE;
      if !(requestedPayload <= maxPayload) {
        return DATA_OUT_OF_RANGE;
      }
      return SUCCESS;
    }

    /** A request of the right size is remembered even when it is then refused. */
    method DecodeRequest(payload: Option<seq<byte>>) returns (rc: Rc, offset: u32, length: u32)
      modifies this`requested
      ensures payload.None? ==> rc == INVALID_DATA && requested == old(requested)
      ensures payload.Some? && |payload.value| != 8 ==> rc == INVALID_LENGTH && requested == old(requested)
      ensures payload.Some? && |payload.value| == 8 ==>
                && requested == Request(offset, length)
                && payload.value == Le32(offset) + Le32(length)
                && rc == Verdict(requested, maximumTransferSize, componentImageSize)
    {
      offset, length := 0, 0;
      if payload.None? {
        return INVALID_DATA, 0, 0;
      }
      if |payload.value| != 8 {
        return INVALID_LENGTH, 0, 0;
      }
      offset := Le32At(payload.value, 0);
      length := Le32At(payload.value, 4);
      requested := Request(offset, length);
      Le32Exact(payload.value, 0);
      Le32Exact(payload.value, 4);
      rc := CheckValidity();
    }

    method GetPaddingLength() returns (rc: Rc, paddingLength: u32)
      ensures rc == (if Padding(requested, componentImageSize) > BASELINE then DATA_OUT_OF_RANGE else SUCCESS)
      ensures paddingLength == if rc == SUCCESS then Padding(requested, componentImageSize) else 0
    {
      paddingLength := 0;
      var requestedPayload := requested.length + requested.offset;
      var padding: int := requestedPayload - componentImageSize;
      if padding > BASELINE {
        return DATA_OUT_OF_RANGE, paddingLength;
      }
      paddingLength := if padding > 0 then padding else 0;
      rc := SUCCESS;
    }

    /** The payload has one byte more than was asked for, as a 32-bit number, and at least 32. */
    predicate Fits(payload: array<byte>)
      reads this
    {
      payload.Length == (requested.length + 1) % 0x1_0000_0000 && payload.Length >= 32
    }

    /** Why a response is refused before its padding is looked at. */
    ghost function Refusal(instanceId: byte, payload: array?<byte>, portion: Option<seq<byte>>, portionLength: nat): Rc
      reads this
    {
      if payload == null || portion.None? then INVALID_DATA
      else if payload.Length != Wrap32(requested.length + 1) || payload.Length < BASELINE || portionLength == 0 then
        INVALID_LENGTH
      else if instanceId > INSTANCE_MAX then INVALID_DATA
      else SUCCESS
    }

    /** `payload` is the response message's payload, `portion` the memory of the image portion and `portionLength` the
        length it is declared with, which is only compared to zero. The number of bytes to copy is a 32-bit difference;
        a copy that does not fit the payload or the portion, which the code does not check and after which nothing is
        promised, ends in `OutOfBounds`. */
    method EncodeResponse(instanceId: byte, payload: array?<byte>, completionCode: byte, portion: Option<seq<byte>>,
                          portionLength: nat) returns (r: Encoded)
      modifies payload
      ensures r == Done(2) <==>
                payload == null || portion.None?
                || (Fits(payload) && portionLength != 0 && instanceId > 32)
      ensures r == Done(3) <==>
                payload != null && portion.Some? && !(Fits(payload) && portionLength != 0)
      ensures Refusal(instanceId, payload, portion, portionLength) != SUCCESS ==>
                r == Done(Refusal(instanceId, payload, portion, portionLength))
                && (payload != null ==> payload[..] == old(payload[..]))
      ensures Refusal(instanceId, payload, portion, portionLength) == SUCCESS ==>
                var padding := Padding(requested, componentImageSize);
                var kept := Wrap32(requested.length - padding);
                if padding > BASELINE then r == Done(DATA_OUT_OF_RANGE) && payload[..] == [r.rc] + old(payload[1..])
                else if kept > requested.length || kept > |portion.value| then r == OutOfBounds
                else r == Done(SUCCESS) && payload[..] == [completionCode] + portion.value[..kept] + Zeros(padding)
    {
      if payload == null || portion.None? {
        return Done(INVALID_DATA);
      }
      if payload.Length != Wrap32(requested.length + 1) || payload.Length < BASELINE || portionLength == 0 {
        return Done(INVALID_LENGTH);
      }
      if instanceId > INSTANCE_MAX {
        return Done(INVALID_DATA);
      }
      WrapOfLarge(requested.length);
      var rc, padding := GetPaddingLength();
      if rc != SUCCESS {
        payload[0] := rc;
        return Done(rc);
      }
      payload[0] := completionCode;
      var kept := Wrap32(requested.length - padding);
      if kept > payload.Length - 1 || kept > |portion.value| {
        return OutOfBounds;
      }
      KeptFits(requested.length, padding);
      PutPadded(payload, portion.value[..kept], padding);
      r := Done(SUCCESS);
    }
  }

  /** Behind the completion code: the portion, then the padding. */
  method PutPadded(payload: array<byte>, kept: seq<byte>, padding: nat)
    requires payload.Length == 1 + |kept| + padding
    modifies payload
    ensures payload[..] == old(payload[..1]) + kept + Zeros(padding)
  {
    var at := PutAt(payload, 1, kept);
    if padding != 0 {
      at := PutAt(payload, at, Zeros(padding));
    }
    assert payload[..] == payload[..at];
    assert padding == 0 ==> Zeros(padding) == [];
  }

  datatype Encoded = Done(rc: Rc) | OutOfBounds

  lemma KeptFits(length: u32, padding: nat)
    requires padding <= BASELINE <= length + 1 && Wrap32(length - padding) <= length
    ensures Wrap32(length - padding) == length - padding
  {
  }

  /** The one remembered request, for an image of `size` bytes, whose response overruns although it passes all checks:
      31 bytes from just past the image end. Decoding refused it, but remembered it. No accepted request does so. */
  lemma OverrunsIff(req: Request, maxTransfer: u32, size: u32)
    requires Wrap32(req.length + 1) >= BASELINE && Padding(req, size) <= BASELINE
    ensures Wrap32(req.length - Padding(req, size)) > req.length <==> req.length == 31 && req.offset == size + 1
    ensures Wrap32(req.length - Padding(req, size)) > req.length ==>
              Verdict(req, maxTransfer, size) == INVALID_TRANSFER_LENGTH
  {
    WrapOfLarge(req.length);
  }

  /** `length + 1` is computed in 32 bits; where it wraps it is 0, too short for any response. */
  lemma WrapOfLarge(length: u32)
    ensures Wrap32(length + 1) >= BASELINE ==> Wrap32(length + 1) == length + 1
  {
  }

  /** A request refused for its range is refused again when a response to it is encoded: both look at one bound. */
  lemma RangeIsCheckedAlike(req: Request, maxTransfer: u32, size: u32)
    requires BASELINE <= req.length <= maxTransfer
    ensures Verdict(req, maxTransfer, size) == DATA_OUT_OF_RANGE <==> Padding(req, size) > BASELINE
  {
  }

  // ----- the device's side: putting the responses together -----

  /** The device writes each response at the offset it asked for; its buffer has room for the padding. */
  function Reassemble(buffer: seq<byte>, image: seq<byte>, reqs: seq<Request>, maxTransfer: u32): (b: seq<byte>)
    requires |image| <= U32_MAX && |buffer| == |image| + BASELINE
    requires forall i | 0 <= i < |reqs| :: Verdict(reqs[i], maxTransfer, |image|) == SUCCESS
    ensures |b| == |buffer|
    decreases |reqs|
  {
    if reqs == [] then buffer
    else
      var req := reqs[0];
      assert Verdict(req, maxTransfer, |image|) == SUCCESS;
      var written := buffer[..req.offset] + Window(image, req) + buffer[req.offset + req.length..];
      Reassemble(written, image, reqs[1..], maxTransfer)
  }

  predicate Covers(reqs: seq<Request>, at: nat) {
    exists i | 0 <= i < |reqs| :: reqs[i].offset <= at < reqs[i].offset + reqs[i].length
  }

  /** Exactly the covered bytes arrive: the image where it has any, zeros past its end; the others are untouched. */
  lemma {:induction false} ReassembledAt(buffer: seq<byte>, image: seq<byte>, reqs: seq<Request>, maxTransfer: u32,
                                         at: nat)
    requires |image| <= U32_MAX && |buffer| == |image| + BASELINE && at < |buffer|
    requires forall i | 0 <= i < |reqs| :: Verdict(reqs[i], maxTransfer, |image|) == SUCCESS
    ensures Reassemble(buffer, image, reqs, maxTransfer)[at] ==
            if !Covers(reqs, at) then buffer[at] else if at < |image| then image[at] else 0
    decreases |reqs|
  {
    if reqs != [] {
      var req, rest := reqs[0], reqs[1..];
      var next := buffer[..req.offset] + Window(image, req) + buffer[req.offset + req.length..];
      ReassembledAt(next, image, rest, maxTransfer, at);
      CoversCons(req, rest, at);
      assert [req] + rest == reqs;
    }
  }

  lemma CoversCons(req: Request, rest: seq<Request>, at: nat)
    ensures Covers([req] + rest, at) <==> req.offset <= at < req.offset + req.length || Covers(rest, at)
  {
    var reqs := [req] + rest;
    if req.offset <= at < req.offset + req.length {
      assert reqs[0] == req;
    }
    if Covers(rest, at) {
      var i :| 0 <= i < |rest| && rest[i].offset <= at < rest[i].offset + rest[i].length;
      assert reqs[i + 1] == rest[i];
    }
  }

  /** Accepted requests, in any order and overlapping or not, reproduce every image exactly when they cover it. */
  lemma ReassemblesIff(reqs: seq<Request>, maxTransfer: u32, size: u32)
    requires forall i | 0 <= i < |reqs| :: Verdict(reqs[i], maxTransfer, size) == SUCCESS
    ensures (forall at | 0 <= at < size :: Covers(reqs, at)) <==>
            forall image: seq<byte>, buffer: seq<byte> | |image| == size && |buffer| == size + BASELINE ::
              Reassemble(buffer, image, reqs, maxTransfer)[..size] == image
  {
    if forall at | 0 <= at < size :: Covers(reqs, at) {
      forall image: seq<byte>, buffer: seq<byte> | |image| == size && |buffer| == size + BASELINE
        ensures Reassemble(buffer, image, reqs, maxTransfer)[..size] == image
      {
        forall at | 0 <= at < size ensures Reassemble(buffer, image, reqs, maxTransfer)[at] == image[at] {
          ReassembledAt(buffer, image, reqs, maxTransfer, at);
        }
      }
    } else {
      var at :| 0 <= at < size && !Covers(reqs, at);
      var image, buffer := Zeros(size), seq(size + BASELINE, _ => 1 as byte);
      ReassembledAt(buffer, image, reqs, maxTransfer, at);
      assert Reassemble(buffer, image, reqs, maxTransfer)[..size][at] != image[at];
    }
  }

  // ----- which requests are served -----

  /** Exactly the requests accepted: of an allowed length, and needing at most 32 bytes past the image end. */
  lemma AcceptedIff(req: Request, maxTransfer: u32, size: u32)
    ensures Verdict(req, maxTransfer, size) == SUCCESS <==>
            32 <= req.length <= maxTransfer && req.offset + req.length - size <= 32
    ensures Verdict(req, maxTransfer, size) == INVALID_TRANSFER_LENGTH <==> req.length < 32 || req.length > maxTransfer
    ensures Verdict(req, maxTransfer, size) in {SUCCESS, INVALID_TRANSFER_LENGTH, DATA_OUT_OF_RANGE}
  {
  }

  /** A device that asks for one portion after the other, and at the end for what is left, but for no less than 32. */
  function Consecutive(from: nat, size: u32, chunk: u32): (reqs: seq<Request>)
    requires 32 <= chunk
    decreases size - from
  {
    if size <= from then []
    else
      var left := if size - from < 32 then 32 else size - from;
      var length := if left < chunk then left else chunk;
      [Request(from, length)] + Consecutive(from + length, size, chunk)
  }

  lemma {:induction false} ConsecutiveAreServed(from: nat, size: u32, chunk: u32, maxTransfer: u32, at: nat)
    requires 32 <= chunk <= maxTransfer
    ensures forall i | 0 <= i < |Consecutive(from, size, chunk)| ::
              Verdict(Consecutive(from, size, chunk)[i], maxTransfer, size) == SUCCESS
    ensures from <= at < size ==> Covers(Consecutive(from, size, chunk), at)
    decreases size - from
  {
    if from < size {
      var reqs := Consecutive(from, size, chunk);
      var first := reqs[0];
      ConsecutiveAreServed(from + first.length, size, chunk, maxTransfer, at);
      CoversCons(first, reqs[1..], at);
      assert reqs == [first] + reqs[1..];
    }
  }

  /** Every image is transferred: with any portion size from 32 up to the maximum all of these requests are accepted,
      and their responses put together are the image. */
  lemma EveryImageIsTransferred(image: seq<byte>, buffer: seq<byte>, chunk: u32, maxTransfer: u32)
    requires |image| <= U32_MAX && |buffer| == |image| + BASELINE && 32 <= chunk <= maxTransfer
    ensures var reqs := Consecutive(0, |image|, chunk);
            && (forall i | 0 <= i < |reqs| :: Verdict(reqs[i], maxTransfer, |image|) == SUCCESS)
            && Reassemble(buffer, image, reqs, maxTransfer)[..|image|] == image
  {
    var reqs := Consecutive(0, |image|, chunk);
    ConsecutiveAreServed(0, |image|, chunk, maxTransfer, 0);
    forall at | 0 <= at < |image| ensures Covers(reqs, at) {
      ConsecutiveAreServed(0, |image|, chunk, maxTransfer, at);
    }
    hide Reassemble, Consecutive;
    ReassemblesIff(reqs, maxTransfer, |image|);
  }
}
