/// Diagnostic trouble code responses (services $03, $07 and $0A): `writeDtc` and
/// `handleDtcRequest`. At most two codes fit the single frame the responder sends;
/// the rest are dropped.
module ObdDtc {
  import opened Wire
  import opened ObdIds

  /** A trouble code as the `uint16_t` the firmware sends. */
  type Dtc = c: int | 0 <= c < 0x1_0000

  /** The high byte of a code, sent first: `(code >> 8) & 0xFF`. */
  function Hi(code: Dtc): Byte {
    ByteAt(code, 1)
  }

  /** The low byte of a code, sent second: `(code >> 0) & 0xFF`. */
  function Lo(code: Dtc): Byte {
    ByteAt(code, 0)
  }

  /** How a scan tool reassembles a code from its two bytes, high byte first. */
  function Join(hi: Byte, lo: Byte): Dtc {
    BigEndianOfBeValue([hi, lo]);
    assert Radix(2) == 0x1_0000;
    BeValue([hi, lo])
  }

  /** The two bytes of a code are its big-endian form. */
  lemma CodeIsBigEndian(code: Dtc)
    ensures BigEndian(code, 2) == [Hi(code), Lo(code)]
  {
    BigEndianAt(code, 2, 0);
    BigEndianAt(code, 2, 1);
  }

  /** Splitting a code into bytes loses nothing. */
  lemma JoinSplit(code: Dtc)
    ensures Join(Hi(code), Lo(code)) == code
  {
    CodeIsBigEndian(code);
    assert Radix(2) == 0x1_0000;
    BeValueOfBigEndian(code, 2);
  }

  /** Any two bytes are the split of exactly the code they join to. */
  lemma SplitJoin(hi: Byte, lo: Byte)
    ensures Hi(Join(hi, lo)) == hi && Lo(Join(hi, lo)) == lo
  {
    BigEndianOfBeValue([hi, lo]);
    CodeIsBigEndian(Join(hi, lo));
  }

  /** `writeDtc`: the code's high byte at `offset`, its low byte right after. */
  method WriteDtc(msg: array<Byte>, offset: nat, code: Dtc)
    requires offset + 1 < msg.Length
    modifies msg
    ensures msg[..] == old(msg[..])[offset := Hi(code)][offset + 1 := Lo(code)]
  {
    msg[offset + 0] := (code / 256) % 256;
    msg[offset + 1] := (code / 1) % 256;
    assert Hi(code) == ByteAt(code / 256, 0);
  }

  /** The bytes of `codes`, each code high byte first. */
  function CodeBytes(codes: seq<Dtc>): (b: seq<Byte>)
    ensures |b| == 2 * |codes|
  {
    if codes == [] then [] else CodeBytes(codes[..|codes| - 1]) + [Hi(codes[|codes| - 1]), Lo(codes[|codes| - 1])]
  }

  /** Code `i` sits at bytes `2i` and `2i + 1`. */
  lemma {:induction false} CodeBytesAt(codes: seq<Dtc>, i: nat)
    requires i < |codes|
    ensures CodeBytes(codes)[2 * i] == Hi(codes[i]) && CodeBytes(codes)[2 * i + 1] == Lo(codes[i])
  {
    var init := codes[..|codes| - 1];
    if i < |codes| - 1 {
      CodeBytesAt(init, i);
    }
  }

  /** The count `handleDtcRequest` reports: the snapshot's count capped at two. */
  function Reported(numCodes: int): int {
    if numCodes > 2 then 2 else numCodes
  }

  /** The number of codes actually written: none for a non-positive count. */
  function Written(numCodes: int): nat {
    var n := Reported(numCodes);
    if n > 0 then n else 0
  }

  /** The eight bytes `handleDtcRequest` leaves in its buffer: declared length
      `1 + 1 + 2n`, service echo, count `n`, then `n` codes and zero padding. With
      no codes the firmware writes 2, the echo and 0, which is the same layout. */
  function DtcData(service: Byte, numCodes: int, codes: seq<Dtc>): seq<Byte>
    requires Written(numCodes) <= |codes|
  {
    var n := Reported(numCodes);
    [ToByte(1 + 1 + 2 * n), ToByte(0x40 + service), ToByte(n)]
      + CodeBytes(codes[..Written(numCodes)]) + Zeros(5 - 2 * Written(numCodes))
  }

  /** The frame `handleDtcRequest` sends. */
  function DtcFrame(service: Byte, numCodes: int, codes: seq<Dtc>): Frame
    requires Written(numCodes) <= |codes|
  {
    Frame(ObdTestResponse, 8, DtcData(service, numCodes, codes))
  }

  /** `handleDtcRequest`, with the caller's code array as `codes`, of which the
      first `min(numCodes, 2)` are read. */
  method HandleDtcRequest(service: Byte, numCodes: int, codes: seq<Dtc>) returns (sent: Frame)
    requires Written(numCodes) <= |codes|
    ensures sent == DtcFrame(service, numCodes, codes)
  {
    var n := numCodes;
    if n > 2 {
      n := 2;
    }
    var tx := new Byte[8](_ => 0);
    if n == 0 {
      tx[0] := 0x2;
      tx[1] := ToByte(0x40 + service);
      tx[2] := 0x0;
      Fill3(tx[..], 0x2, ToByte(0x40 + service), 0x0);
      NoCodesData(service, numCodes, codes);
    } else if n <= 2 {
      tx[0] := ToByte(1 + 1 + 2 * n);
      tx[1] := ToByte(0x40 + service);
      tx[2] := ToByte(n);
      var header := [tx[0], tx[1], tx[2]];
      Fill3(tx[..], tx[0], tx[1], tx[2]);
      assert codes[..0] == [];
      var i := 0;
      while i < n
        invariant 0 <= i <= Written(numCodes)
        invariant tx[..] == header + CodeBytes(codes[..i]) + Zeros(5 - 2 * i)
      {
        var dest := 3 + 2 * i;
        WriteStep(header, CodeBytes(codes[..i]), 5 - 2 * i, Hi(codes[i]), Lo(codes[i]));
        CodeBytesSnoc(codes, i);
        WriteDtc(tx, dest, codes[i]);
        i := i + 1;
      }
      WrittenData(service, numCodes, codes, header, i);
    }
    sent := Frame(ObdTestResponse, 8, tx[..]);
  }

  /** A buffer of which only the first three bytes were written. */
  lemma Fill3(d: seq<Byte>, a: Byte, b: Byte, c: Byte)
    requires |d| == 8 && d[0] == a && d[1] == b && d[2] == c
    requires forall k :: 3 <= k < 8 ==> d[k] == 0
    ensures d == [a, b, c] + CodeBytes([]) + Zeros(5)
  {
  }

  /** With a zero count the layout is the three header bytes 2, echo, 0. */
  lemma NoCodesData(service: Byte, numCodes: int, codes: seq<Dtc>)
    requires numCodes == 0
    ensures DtcData(service, numCodes, codes) == [0x2, ToByte(0x40 + service), 0x0] + CodeBytes([]) + Zeros(5)
  {
    assert codes[..0] == [];
  }

  /** Once the loop has written every reported code, the buffer holds `DtcData`. */
  lemma WrittenData(service: Byte, numCodes: int, codes: seq<Dtc>, header: seq<Byte>, i: nat)
    requires i == Written(numCodes) <= |codes|
    requires header == [ToByte(1 + 1 + 2 * Reported(numCodes)), ToByte(0x40 + service), ToByte(Reported(numCodes))]
    ensures DtcData(service, numCodes, codes) == header + CodeBytes(codes[..i]) + Zeros(5 - 2 * i)
  {
  }

  lemma CodeBytesSnoc(codes: seq<Dtc>, i: nat)
    requires i < |codes|
    ensures CodeBytes(codes[..i + 1]) == CodeBytes(codes[..i]) + [Hi(codes[i]), Lo(codes[i])]
  {
    assert codes[..i + 1][..i] == codes[..i];
  }

  /** Writing two bytes right after the filled part of a zero-padded buffer extends the filled part. */
  lemma WriteStep(header: seq<Byte>, body: seq<Byte>, pad: nat, a: Byte, b: Byte)
    requires pad >= 2
    ensures (header + body + Zeros(pad))[|header| + |body| := a][|header| + |body| + 1 := b]
            == header + (body + [a, b]) + Zeros(pad - 2)
  {
  }

  /** Frame layout: with a count `c >= 0` and `n = min(c, 2)`, byte 0 is `2 + 2n`,
      byte 1 the service echo, byte 2 is `n`, code `i < n` occupies bytes `3 + 2i`
      and `4 + 2i` and reassembles to `codes[i]`, and every later byte is zero. */
  lemma DtcLayout(service: Byte, numCodes: int, codes: seq<Dtc>)
    requires 0 <= numCodes && Written(numCodes) <= |codes|
    ensures var d := DtcData(service, numCodes, codes);
      var n := Written(numCodes);
      && |d| == 8 && n == (if numCodes < 2 then numCodes else 2)
      && d[0] == 2 + 2 * n
      && d[1] == ToByte(0x40 + service)
      && d[2] == n
      && (forall i :: 0 <= i < n ==> d[3 + 2 * i] == Hi(codes[i]) && d[4 + 2 * i] == Lo(codes[i]))
      && (forall i :: 0 <= i < n ==> Join(d[3 + 2 * i], d[4 + 2 * i]) == codes[i])
      && (forall k :: 3 + 2 * n <= k < 8 ==> d[k] == 0)
  {
    var d := DtcData(service, numCodes, codes);
    var n := Written(numCodes);
    forall i | 0 <= i < n
      ensures d[3 + 2 * i] == Hi(codes[i]) && d[4 + 2 * i] == Lo(codes[i])
      ensures Join(d[3 + 2 * i], d[4 + 2 * i]) == codes[i]
    {
      CodeBytesAt(codes[..n], i);
      JoinSplit(codes[i]);
    }
  }

  /** Only the first two codes are reported: a longer list gives the same frame as its first two. */
  lemma DtcTruncation(service: Byte, numCodes: int, codes: seq<Dtc>)
    requires numCodes >= 2 && 2 <= |codes|
    ensures DtcData(service, numCodes, codes) == DtcData(service, 2, codes[..2])
  {
    assert codes[..2][..2] == codes[..2];
  }

  /** How a scan tool reads a single-frame service $03 answer: byte 2 codes (at
      most two fit), each reassembled from its two bytes. */
  function ParseDtcs(d: seq<Byte>): (codes: seq<Dtc>)
    requires |d| == 8
    ensures |codes| <= 2
  {
    var n := if d[2] > 2 then 2 else d[2];
    seq(n, i requires 0 <= i < n => Join(d[3 + 2 * i], d[4 + 2 * i]))
  }

  /** Reading the frame back yields exactly the codes that were reported. */
  lemma DtcRoundTrip(service: Byte, numCodes: int, codes: seq<Dtc>)
    requires 0 <= numCodes && Written(numCodes) <= |codes|
    ensures ParseDtcs(DtcData(service, numCodes, codes)) == codes[..Written(numCodes)]
  {
    DtcLayout(service, numCodes, codes);
  }

  /** Two stored codes 0x0101 and 0x0202 requested with service $03. */
  lemma TwoCodesExample()
    ensures DtcData(ObdStoredDtc, 2, [0x0101, 0x0202]) == [6, 0x43, 2, 0x01, 0x01, 0x02, 0x02, 0]
  {
    var codes: seq<Dtc> := [0x0101, 0x0202];
    assert codes[..2] == codes;
    assert codes[..1] == [0x0101];
    assert CodeBytes(codes) == CodeBytes([0x0101]) + [0x02, 0x02];
    assert CodeBytes([0x0101]) == [0x01, 0x01];
    assert DtcData(ObdStoredDtc, 2, codes) == [6, 0x43, 2] + [0x01, 0x01, 0x02, 0x02] + [0];
  }

  /** No codes: declared length 2, the echo and a zero count. */
  lemma NoCodesExample(service: Byte)
    ensures DtcData(service, 0, []) == [2, ToByte(0x40 + service), 0, 0, 0, 0, 0, 0]
  {
    DtcLayout(service, 0, []);
  }
}
