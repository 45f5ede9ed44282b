/** TPM 1.2 wire format as far as the vTPM control program uses it: bytes,
    big-endian 32-bit fields, the two ordinals it recognises and the five
    canned command and response buffers of `vtpmctrl_create`. */
module Tpm12 {

  newtype byte = x: int | 0 <= x < 0x100

  /** Capacity of the request buffer the service loop reads into. */
  const BufferSize: nat := 4096

  /** Size of the header common to every TPM 1.2 command and response:
      2-byte tag, 4-byte length, 4-byte ordinal or return code. */
  const HeaderSize: nat := 10

  /** Number of leading request bytes compared against a capability pattern. */
  const PatternSize: nat := 22

  const OrdStartup: nat := 0x99
  const OrdGetCapability: nat := 0x65

  const TagRquCommand: nat := 0x00c1
  const TagRspCommand: nat := 0x00c4

  /** Header-only response with return code 0 (TPM_SUCCESS). */
  const SuccessResp: seq<byte> :=
    [0x00, 0xc4, 0x00, 0x00, 0x00, 0x0a, 0x00, 0x00, 0x00, 0x00]

  /** GetCapability(TPM_CAP_PROPERTY, 0x115): the TIS timeout values. */
  const TimeoutReq: seq<byte> :=
    [0x00, 0xc1, 0x00, 0x00, 0x00, 0x16, 0x00, 0x00, 0x00, 0x65,
     0x00, 0x00, 0x00, 0x05, 0x00, 0x00, 0x00, 0x04, 0x00, 0x00,
     0x01, 0x15]

  /** Answer to TimeoutReq: after the header, a 32-bit size field holding 0
      and then four 32-bit timeout values. */
  const TimeoutRes: seq<byte> :=
    [0x00, 0xc4, 0x00, 0x00, 0x00, 0x1e, 0x00, 0x00, 0x00, 0x00,
     0x00, 0x00, 0x00, 0x00,
     0x00, 0x01, 0x00, 0x00,
     0x00, 0x02, 0x00, 0x00,
     0x00, 0x03, 0x00, 0x00,
     0x00, 0x04, 0x00, 0x00]

  /** GetCapability(TPM_CAP_PROPERTY, 0x120): the command durations. */
  const DurationReq: seq<byte> :=
    [0x00, 0xc1, 0x00, 0x00, 0x00, 0x16, 0x00, 0x00, 0x00, 0x65,
     0x00, 0x00, 0x00, 0x05, 0x00, 0x00, 0x00, 0x04, 0x00, 0x00,
     0x01, 0x20]

  /** Answer to DurationReq: after the header, a 32-bit size field holding 0
      and then three 32-bit duration values. */
  const DurationRes: seq<byte> :=
    [0x00, 0xc4, 0x00, 0x00, 0x00, 0x1a, 0x00, 0x00, 0x00, 0x00,
     0x00, 0x00, 0x00, 0x00,
     0x00, 0x01, 0x00, 0x00,
     0x00, 0x02, 0x00, 0x00,
     0x00, 0x03, 0x00, 0x00]

  /** The only buffers the responder ever hands to `write`. */
  const CannedResponses: set<seq<byte>> := {SuccessResp, TimeoutRes, DurationRes}

  /** The unsigned value of the four bytes at `at..at+3`, most significant first. */
  function Be32(s: seq<byte>, at: nat): (v: nat)
    requires at + 4 <= |s|
    ensures v < 0x1_0000_0000
  {
    ((s[at] as nat * 0x100 + s[at + 1] as nat) * 0x100 + s[at + 2] as nat) * 0x100 + s[at + 3] as nat
  }

  /** The four big-endian bytes of a 32-bit value. */
  function Be32Bytes(v: nat): (s: seq<byte>)
    requires v < 0x1_0000_0000
    ensures |s| == 4
  {
    var a := v / 0x100;
    var c := a / 0x100;
    [(c / 0x100) as byte, (c % 0x100) as byte, (a % 0x100) as byte, (v % 0x100) as byte]
  }

  /** Decoding the encoding of a 32-bit value gives the value back. */
  lemma Be32Decodes(v: nat)
    requires v < 0x1_0000_0000
    ensures Be32(Be32Bytes(v), 0) == v
  {
    var a := v / 0x100;
    var c := a / 0x100;
    assert v == a * 0x100 + v % 0x100;
    assert a == c * 0x100 + a % 0x100;
    assert c == (c / 0x100) * 0x100 + c % 0x100;
  }

  /** Encoding the value of four bytes gives the bytes back, so a 32-bit
      field and its four bytes determine each other. */
  lemma Be32RoundTrip(s: seq<byte>, at: nat)
    requires at + 4 <= |s|
    ensures Be32Bytes(Be32(s, at)) == s[at..at + 4]
  {
    var v := Be32(s, at);
    var b0, b1, b2, b3 := s[at] as nat, s[at + 1] as nat, s[at + 2] as nat, s[at + 3] as nat;
    assert v / 0x100 == (b0 * 0x100 + b1) * 0x100 + b2;
    assert v / 0x100 / 0x100 == b0 * 0x100 + b1;
  }

  /** The big-endian ordinal of a command: bytes 6..9 of the buffer. */
  function Ordinal(buffer: seq<byte>): (o: nat)
    requires |buffer| >= HeaderSize
    ensures o < 0x1_0000_0000
    ensures Be32Bytes(o) == buffer[6..10]
  {
    Be32RoundTrip(buffer, 6);
    Be32(buffer, 6)
  }

  /** The big-endian length field: bytes 2..5 of a buffer. */
  function LengthField(buffer: seq<byte>): (len: nat)
    requires |buffer| >= HeaderSize
    ensures len < 0x1_0000_0000
    ensures Be32Bytes(len) == buffer[2..6]
  {
    Be32RoundTrip(buffer, 2);
    Be32(buffer, 2)
  }

  /** The big-endian tag: bytes 0..1 of a buffer. */
  function Tag(buffer: seq<byte>): (tag: nat)
    requires |buffer| >= HeaderSize
    ensures tag < 0x1_0000
  {
    buffer[0] as nat * 0x100 + buffer[1] as nat
  }

  /** Every canned buffer declares its own size in its length field. */
  lemma CannedLengths()
    ensures |SuccessResp| == 10 && LengthField(SuccessResp) == 10
    ensures |TimeoutReq| == 22 && LengthField(TimeoutReq) == 22
    ensures |TimeoutRes| == 30 && LengthField(TimeoutRes) == 30
    ensures |DurationReq| == 22 && LengthField(DurationReq) == 22
    ensures |DurationRes| == 26 && LengthField(DurationRes) == 26
  {
  }

  /** The two requests carry the command tag and the GetCapability ordinal;
      the three responses carry the response tag and return code 0. */
  lemma CannedHeaders()
    ensures Tag(TimeoutReq) == TagRquCommand && Ordinal(TimeoutReq) == OrdGetCapability
    ensures Tag(DurationReq) == TagRquCommand && Ordinal(DurationReq) == OrdGetCapability
    ensures Tag(SuccessResp) == TagRspCommand && Be32(SuccessResp, 6) == 0
    ensures Tag(TimeoutRes) == TagRspCommand && Be32(TimeoutRes, 6) == 0
    ensures Tag(DurationRes) == TagRspCommand && Be32(DurationRes, 6) == 0
  {
  }

  /** The two capability patterns agree on their first 21 bytes and differ in
      the last (subCap 0x115 against 0x120), so no request matches both. */
  lemma PatternsDisjoint(buffer: seq<byte>)
    requires |buffer| >= PatternSize
    ensures TimeoutReq[..21] == DurationReq[..21] && TimeoutReq[21] != DurationReq[21]
    ensures !(buffer[..PatternSize] == TimeoutReq && buffer[..PatternSize] == DurationReq)
  {
  }

  /** The three canned responses have pairwise different lengths, so they
      are pairwise different. */
  lemma CannedResponsesDistinct()
    ensures |SuccessResp| != |TimeoutRes| && |SuccessResp| != |DurationRes| && |TimeoutRes| != |DurationRes|
    ensures SuccessResp != TimeoutRes && SuccessResp != DurationRes && TimeoutRes != DurationRes
    ensures |CannedResponses| == 3
  {
  }
}
