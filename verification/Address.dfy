/**
 Addresses: a tag in variable-length form, the data, and the first four bytes of
 a hash of both, written in Base58.
 */
module Address {
  import opened Machine
  import opened Digits
  import opened Base58
  import Codec = Base58Codec

  const CHECKSUM_SIZE: nat := 4

  // ----- Variable-length numbers, least significant seven bits first

  function VarintCode(v: nat): (s: bytes)
    ensures |s| > 0
  {
    if v >= 128 then [v % 128 + 128] + VarintCode(v / 128) else [v]
  }

  method WriteVarint(v: nat) returns (s: bytes)
    ensures s == VarintCode(v)
  {
    var i := v;
    s := [];
    while i >= 128
      invariant VarintCode(v) == s + VarintCode(i)
    {
      s := s + [i % 128 + 128];
      i := i / 128;
    }
    s := s + [i];
  }

  /** What reading gives: a count of bytes and a value, or an error code. */
  datatype Read = Done(read: nat, value: nat) | Error(code: int)

  /** Reads on after k bytes. Running out of input is not an error. */
  function ReadFrom(s: bytes, k: nat): (r: Read)
    requires k <= |s|
    ensures r.Done? ==> k <= r.read <= |s|
    decreases |s| - k
  {
    if k == |s| then Done(k, 0)
    else if 7 * k + 7 >= 64 && (k > 9 || s[k] >= 2) then Error(-1)
    else if s[k] == 0 && k != 0 then Error(-2)
    else if s[k] < 128 then Done(k + 1, s[k])
    else match ReadFrom(s, k + 1)
      case Error(e) => Error(e)
      case Done(n, v) => Done(n, s[k] - 128 + 128 * v)
  }

  /** The first k bytes have the continuation bit. */
  predicate Continues(s: bytes, k: nat) { k <= |s| && forall i :: 0 <= i < k ==> s[i] >= 128 }

  /** The number of which the bytes hold seven bits each, the first one the lowest. */
  function LowBits(s: bytes, n: nat): nat
    requires n <= |s|
  {
    if n == 0 then 0 else LowBits(s, n - 1) + s[n - 1] % 128 * Pow2(7 * (n - 1))
  }

  /** The tenth byte has more than the one bit that is left of 64. */
  predicate Overflows(s: bytes) { Continues(s, 9) && |s| > 9 && s[9] >= 2 }

  /** A zero byte ends a number of more than one byte. */
  predicate NonCanonical(s: bytes) { exists k :: 0 < k < 10 && k < |s| && Continues(s, k) && s[k] == 0 }

  /** The number ends with byte n - 1, or the input ends there. */
  predicate EndsAt(s: bytes, n: nat) {
    n <= |s| && Continues(s, if n > 0 then n - 1 else 0) && (if n == 0 then |s| == 0 else s[n - 1] < 128 || n == |s|)
  }

  /** What a reading result says about the bytes. */
  ghost predicate ReadOk(s: bytes, read: int, value: nat) {
    && (read == -1 <==> Overflows(s)) && (read == -2 <==> NonCanonical(s)) && read >= -2
    && (read >= 0 ==> EndsAt(s, read) && read <= 10 && value == LowBits(s, read) && value < TWO_TO_64)
  }

  /** The loop of `read_varint` for 64-bit values. */
  method ReadVarint(s: bytes) returns (read: int, i: nat)
    ensures match ReadFrom(s, 0)
            case Error(e) => read == e
            case Done(n, v) => read == n && i == v
    ensures ReadOk(s, read, if read < 0 then 0 else i)
  {
    ReadMeans(s);
    hide ReadOk, Pow2, ReadFrom;
    read, i := 0, 0;
    var unit: nat, k: nat := 1, 0;
    while true
      invariant 0 <= k <= |s| && k <= 9 && read == k
      invariant ReadFrom(s, 0) == Continue(i, unit, ReadFrom(s, k))
      decreases |s| - k
    {
      if k == |s| {
        ReadEnd(s, i, unit);
        return;
      }
      var byte := s[k];
      read := read + 1;
      BitsLeft(k);
      Turn(s, k, i, unit);
      if 7 * k + 7 >= 64 && byte >= Pow2(64 - 7 * k) {
        return -1, i;
      }
      if byte == 0 && k != 0 {
        return -2, i;
      }
      i := i + byte % 128 * unit;
      if byte < 128 {
        return;
      }
      unit, k := unit * 128, k + 1;
    }
  }

  /** When reading fails and with which code, and what it gives otherwise, by the bytes alone. */
  lemma ReadMeans(s: bytes)
    ensures var r := ReadFrom(s, 0); if r.Error? then r.code < 0 && ReadOk(s, r.code, 0) else ReadOk(s, r.read, r.value)
  {
    hide ReadFrom, EndsAt, Overflows, NonCanonical;
    ReadEnds(s, 0);
    if ReadFrom(s, 0).Done? { ReadBits(s, 0); }
    Pow2Of64();
  }

  /** How the reading of a number ends of which k bytes are read. */
  lemma {:induction false} ReadEnds(s: bytes, k: nat)
    requires k <= 9 && Continues(s, k)
    ensures var r := ReadFrom(s, k);
            && (r == Error(-1) <==> Overflows(s)) && (r == Error(-2) <==> NonCanonical(s))
            && (r.Error? ==> r.code == -1 || r.code == -2) && (r.Done? ==> r.read <= 10 && EndsAt(s, r.read))
    decreases |s| - k
  {
    if k < |s| && k < 9 && s[k] >= 128 { ReadEnds(s, k + 1); }
  }

  lemma {:induction false} ReadBits(s: bytes, k: nat)
    requires k <= 9 && k <= |s| && ReadFrom(s, k).Done?
    ensures var r := ReadFrom(s, k);
            r.value < Pow2(64 - 7 * k) && LowBits(s, r.read) == LowBits(s, k) + r.value * Pow2(7 * k)
    decreases |s| - k
  {
    BitsEnd(s, k);
    hide Pow2, LowBits;
    if k < |s| {
      ByteFits(s[k], k);
      if s[k] >= 128 {
        var v := ReadFrom(s, k + 1).value;
        ReadBits(s, k + 1);
        BitsStep(s, k, v);
        BoundStep(s[k], v, k);
      }
    }
  }

  lemma BitsEnd(s: bytes, k: nat)
    requires k <= |s|
    ensures k < |s| && s[k] < 128 ==> LowBits(s, k + 1) == LowBits(s, k) + s[k] * Pow2(7 * k)
  {
  }

  lemma ByteFits(byte: nat, k: nat)
    requires k <= 9
    ensures byte < (if k == 9 then 2 else 128) ==> byte < Pow2(64 - 7 * k)
  {
    if k == 9 { assert Pow2(1) == 2; } else { Pow2Sum(7, 57 - 7 * k); assert Pow2(7) == 128; }
  }

  lemma BoundStep(byte: nat, v: nat, k: nat)
    requires 128 <= byte < 256 && k <= 8 && v < Pow2(57 - 7 * k)
    ensures byte - 128 + 128 * v < Pow2(64 - 7 * k)
  {
    Pow2Sum(7, 57 - 7 * k);
    assert Pow2(7) == 128;
  }

  lemma BitsStep(s: bytes, k: nat, v: nat)
    requires k < |s| && s[k] >= 128
    ensures LowBits(s, k + 1) + v * Pow2(7 * (k + 1)) == LowBits(s, k) + (s[k] - 128 + 128 * v) * Pow2(7 * k)
  {
    var p := Pow2(7 * k);
    assert Pow2(7 * (k + 1)) == 128 * p by { Pow2Sum(7, 7 * k); assert Pow2(7) == 128; }
    ShiftStep(s[k] - 128, v, p);
    assert s[k] % 128 == s[k] - 128;
  }

  lemma ShiftStep(low: nat, v: nat, p: nat)
    ensures low * p + v * (128 * p) == (low + 128 * v) * p
  {
  }

  lemma BitsLeft(k: nat)
    requires k <= 9
    ensures 7 * k + 7 >= 64 ==> k == 9 && Pow2(64 - 7 * k) == 2
  {
    assert Pow2(1) == 2;
  }

  /** A result read further on, put behind the bits already read. */
  function Continue(i: nat, unit: nat, r: Read): Read {
    match r
    case Error(e) => Error(e)
    case Done(n, v) => Done(n, i + unit * v)
  }

  lemma ReadEnd(s: bytes, i: nat, unit: nat)
    ensures Continue(i, unit, ReadFrom(s, |s|)) == Done(|s|, i)
  {
  }

  /** What one turn of the loop leaves to be read. */
  lemma Turn(s: bytes, k: nat, i: nat, unit: nat)
    requires k < |s| && k <= 9
    ensures Continue(i, unit, ReadFrom(s, k)) ==
            if k == 9 && s[k] >= 2 then Error(-1)
            else if s[k] == 0 && k != 0 then Error(-2)
            else if s[k] < 128 then Done(k + 1, i + s[k] % 128 * unit)
            else Continue(i + s[k] % 128 * unit, unit * 128, ReadFrom(s, k + 1))
  {
    if s[k] >= 128 && k < 9 && ReadFrom(s, k + 1).Done? {
      ShiftStep(s[k] % 128, ReadFrom(s, k + 1).value, unit);
      Commute(unit, ReadFrom(s, k).value);
      Commute(unit * 128, ReadFrom(s, k + 1).value);
      Commute(unit, 128);
    } else {
      Commute(unit, s[k]);
    }
  }

  /** Reading undoes writing, whatever follows; `pre` is what was read before. */
  lemma {:induction false} ReadWritten(pre: bytes, v: nat, rest: bytes)
    requires |pre| <= 9 && v < Pow2(64 - 7 * |pre|) && (v > 0 || |pre| == 0)
    ensures ReadFrom(pre + VarintCode(v) + rest, |pre|) == Done(|pre| + |VarintCode(v)|, v)
    decreases v
  {
    var k, s := |pre|, pre + VarintCode(v) + rest;
    assert s[k] == VarintCode(v)[0];
    if k == 9 { assert Pow2(64 - 7 * k) == 2; }
    if v >= 128 {
      Pow2Sum(7, 57 - 7 * k);
      assert Pow2(7) == 128;
      var pre' := pre + [v % 128 + 128];
      ReadWritten(pre', v / 128, rest);
      assert s == pre' + VarintCode(v / 128) + rest;
    }
  }

  /** What is read up to a byte without the continuation bit is what is written. */
  lemma {:induction false} WrittenRead(s: bytes, k: nat)
    requires k < |s| && ReadFrom(s, k).Done? && s[ReadFrom(s, k).read - 1] < 128
    ensures var r := ReadFrom(s, k);
            && k < r.read && s[k..r.read] == VarintCode(r.value)
            && (k > 0 ==> r.value > 0)
            && forall i :: k <= i < r.read - 1 ==> s[i] >= 128
    decreases |s| - k
  {
    hide VarintCode;
    var r := ReadFrom(s, k);
    assert s[k..r.read] == [s[k]] + s[k + 1..r.read];
    if s[k] >= 128 {
      WrittenRead(s, k + 1);
      CodeStep(s[k], ReadFrom(s, k + 1).value);
    } else {
      LastStep(s[k]);
    }
  }

  lemma LastStep(byte: nat)
    requires byte < 128
    ensures VarintCode(byte) == [byte]
  {
  }

  lemma CodeStep(byte: nat, v: nat)
    requires 128 <= byte < 256 && v > 0
    ensures VarintCode(byte - 128 + 128 * v) == [byte] + VarintCode(v)
  {
    var w := byte - 128 + 128 * v;
    assert w % 128 == byte - 128 && w / 128 == v;
  }

  /** Input that runs out in the middle of a number. */
  predicate Unterminated(s: bytes) { forall i :: 0 <= i < |s| ==> s[i] >= 128 }

  lemma {:induction false} LastByteRead(s: bytes, k: nat)
    requires k <= |s| && ReadFrom(s, k).Done? && |s| > 0 && (k > 0 ==> s[k - 1] >= 128)
    ensures ReadFrom(s, k).read > 0
    ensures s[ReadFrom(s, k).read - 1] < 128 <==> exists i :: k <= i < |s| && s[i] < 128
    decreases |s| - k
  {
    if k < |s| && s[k] >= 128 { LastByteRead(s, k + 1); }
  }

  // ----- Addresses

  /** The hash gives at least a checksum's worth of bytes. */
  ghost predicate IsHash(hash: bytes -> bytes) { forall s: bytes :: |hash(s)| >= CHECKSUM_SIZE }

  function WithChecksum(hash: bytes -> bytes, payload: bytes): (buf: bytes)
    requires |hash(payload)| >= CHECKSUM_SIZE
  {
    payload + hash(payload)[..CHECKSUM_SIZE]
  }

  method EncodeAddr(hash: bytes -> bytes, tag: nat, data: bytes) returns (addr: string)
    requires IsHash(hash)
    ensures addr == EncodeSpec(WithChecksum(hash, VarintCode(tag) + data))
    ensures var all: bytes := VarintCode(tag) + data; DecodeSpec(addr) == Some(all + hash(all)[..4])
  {
    hide EncodeSpec, DecodeSpec, VarintCode;
    DecodeEncode(WithChecksum(hash, VarintCode(tag) + data));
    var buf := WriteVarint(tag);
    buf := buf + data;
    buf := buf + hash(buf)[..CHECKSUM_SIZE];
    addr := Codec.Encode(buf);
  }

  /** The payload of an address whose checksum is right. */
  function Payload(hash: bytes -> bytes, addr: string): (r: Option<bytes>)
    requires forall s: bytes :: |hash(s)| >= CHECKSUM_SIZE
  {
    match DecodeSpec(addr)
    case None => None
    case Some(buf) =>
      if |buf| <= CHECKSUM_SIZE then None
      else
        var payload := buf[..|buf| - CHECKSUM_SIZE];
        if hash(payload)[..CHECKSUM_SIZE] == buf[|buf| - CHECKSUM_SIZE..] then Some(payload) else None
  }

  /** Tag and data of an address. */
  ghost function AddressOf(hash: bytes -> bytes, addr: string): (r: Option<(nat, bytes)>)
    requires IsHash(hash)
  {
    match Payload(hash, addr)
    case None => None
    case Some(payload) =>
      match ReadFrom(payload, 0)
      case Error(_) => None
      case Done(n, tag) => if n == 0 then None else Some((tag, payload[n..]))
  }

  /** More than four bytes, of which the last four are the first four of the hash of the rest. */
  predicate Checked(hash: bytes -> bytes, buf: bytes)
    requires forall s: bytes :: |hash(s)| >= 4
  {
    |buf| > 4 && buf[|buf| - 4..] == hash(buf[..|buf| - 4])[..4]
  }

  /** The tag is the number at the beginning of the payload, and the data is the rest. */
  ghost predicate Splits(payload: bytes, tag: nat, data: bytes) {
    exists n :: 0 < n <= |payload| && EndsAt(payload, n) && tag == LowBits(payload, n) && tag < TWO_TO_64 && data == payload[n..]
  }

  /** The result says just what is in the decoded bytes: nothing unless the checksum is
      right and the tag is a proper 64-bit number. */
  ghost predicate IsAddress(hash: bytes -> bytes, buf: Option<bytes>, r: Option<(nat, bytes)>)
    requires forall s: bytes :: |hash(s)| >= 4
  {
    if buf.None? || !Checked(hash, buf.value) then r.None?
    else
      var payload: bytes := buf.value[..|buf.value| - 4];
      if Overflows(payload) || NonCanonical(payload) then r.None?
      else r.Some? && Splits(payload, r.value.0, r.value.1)
  }

  lemma AddressMeans(hash: bytes -> bytes, addr: string)
    requires IsHash(hash)
    ensures IsAddress(hash, DecodeSpec(addr), AddressOf(hash, addr))
  {
    hide DecodeSpec, ReadFrom, EndsAt, Overflows, NonCanonical, LowBits;
    var buf := DecodeSpec(addr);
    if buf.Some? && Checked(hash, buf.value) {
      var payload: bytes := buf.value[..|buf.value| - 4];
      ReadMeans(payload);
      NothingRead(payload);
      var r := ReadFrom(payload, 0);
      assert r.Error? || (0 < r.read <= |payload| && EndsAt(payload, r.read));
    }
  }

  lemma NothingRead(s: bytes)
    ensures EndsAt(s, 0) ==> |s| == 0
  {
  }

  /** One wrong byte in the checksum, and the address is rejected. */
  lemma ChangedChecksum(hash: bytes -> bytes, addr: string, i: nat, b: nat)
    requires IsHash(hash) && AddressOf(hash, addr).Some?
    requires var buf := DecodeSpec(addr).value; |buf| - 4 <= i < |buf| && b != buf[i] && b < 256
    ensures AddressOf(hash, EncodeSpec(DecodeSpec(addr).value[i := b])) == None
  {
    hide DecodeSpec, EncodeSpec, ReadFrom;
    var buf := DecodeSpec(addr).value;
    var changed: bytes := buf[i := b];
    var n := |buf| - 4;
    DecodeEncode(changed);
    assert changed[..n] == buf[..n] && changed[n..][i - n] != buf[n..][i - n];
  }

  /** The first half of `decode_addr`: everything up to the checksum. */
  method CheckedPayload(hash: bytes -> bytes, addr: string) returns (r: Option<bytes>)
    requires IsHash(hash)
    ensures r == Payload(hash, addr)
  {
    hide DecodeSpec;
    var decoded := Codec.Decode(addr);
    if decoded.None? {
      return None;
    }
    var buf := decoded.value;
    if |buf| <= CHECKSUM_SIZE {
      return None;
    }
    var checksum := buf[|buf| - CHECKSUM_SIZE..];
    buf := buf[..|buf| - CHECKSUM_SIZE];
    return if hash(buf)[..CHECKSUM_SIZE] != checksum then None else Some(buf);
  }

  method DecodeAddr(hash: bytes -> bytes, addr: string) returns (r: Option<(nat, bytes)>)
    requires IsHash(hash)
    ensures r == AddressOf(hash, addr)
    ensures IsAddress(hash, DecodeSpec(addr), r)
  {
    AddressMeans(hash, addr);
    hide Payload, ReadFrom, IsAddress, ReadOk;
    var payload := CheckedPayload(hash, addr);
    if payload.None? {
      return None;
    }
    var buf := payload.value;
    ReadMeans(buf);
    var read, tag := ReadVarint(buf);
    if read <= 0 {
      return None;
    }
    return Some((tag, buf[read..]));
  }

  /** The payload of the address made of a payload. */
  lemma PayloadRoundTrip(hash: bytes -> bytes, payload: bytes)
    requires IsHash(hash) && |payload| > 0
    ensures Payload(hash, EncodeSpec(WithChecksum(hash, payload))) == Some(payload)
  {
    hide DecodeSpec, EncodeSpec;
    var buf := WithChecksum(hash, payload);
    DecodeEncode(buf);
    assert buf[..|buf| - CHECKSUM_SIZE] == payload && buf[|buf| - CHECKSUM_SIZE..] == hash(payload)[..CHECKSUM_SIZE];
  }

  lemma PayloadMakesAddress(hash: bytes -> bytes, addr: string)
    requires IsHash(hash) && Payload(hash, addr).Some?
    ensures EncodeSpec(WithChecksum(hash, Payload(hash, addr).value)) == addr
  {
    hide DecodeSpec, EncodeSpec;
    EncodeDecode(addr);
    var buf := DecodeSpec(addr).value;
    assert buf == buf[..|buf| - CHECKSUM_SIZE] + buf[|buf| - CHECKSUM_SIZE..];
  }

  /** Every address decodes to the tag and the data it was made of. */
  lemma AddressRoundTrip(hash: bytes -> bytes, tag: nat, data: bytes)
    requires IsHash(hash) && tag < TWO_TO_64
    ensures AddressOf(hash, EncodeSpec(WithChecksum(hash, VarintCode(tag) + data))) == Some((tag, data))
  {
    hide Payload, EncodeSpec, ReadFrom, VarintCode;
    var payload := VarintCode(tag) + data;
    PayloadRoundTrip(hash, payload);
    Pow2Of64();
    ReadWritten([], tag, data);
    assert [] + VarintCode(tag) + data == payload;
    assert payload[|VarintCode(tag)|..] == data;
  }

  /** Making the address again from what it decodes to gives the address back,
      unless the payload runs out inside the tag: `read_varint` takes the end of
      input for the end of the number. */
  lemma ReencodeIffTerminated(hash: bytes -> bytes, addr: string)
    requires IsHash(hash) && AddressOf(hash, addr).Some?
    ensures Payload(hash, addr).Some?
    ensures var (tag, data) := AddressOf(hash, addr).value;
            EncodeSpec(WithChecksum(hash, VarintCode(tag) + data)) == addr <==> !Unterminated(Payload(hash, addr).value)
  {
    hide Payload, EncodeSpec, ReadFrom, VarintCode;
    var payload := Payload(hash, addr).value;
    var (tag, data) := AddressOf(hash, addr).value;
    var again := VarintCode(tag) + data;
    PayloadMakesAddress(hash, addr);
    PayloadRoundTrip(hash, again);
    assert EncodeSpec(WithChecksum(hash, again)) == addr <==> again == payload;
    TagAgain(payload, ReadFrom(payload, 0).read, tag);
  }

  lemma TagAgain(payload: bytes, n: nat, tag: nat)
    requires ReadFrom(payload, 0) == Done(n, tag) && n > 0
    ensures VarintCode(tag) + payload[n..] == payload <==> !Unterminated(payload)
  {
    hide ReadFrom, VarintCode;
    LastByteRead(payload, 0);
    if Unterminated(payload) {
      CodeTerminates(tag);
    } else {
      WrittenRead(payload, 0);
      assert payload == payload[0..n] + payload[n..];
    }
  }

  lemma {:induction false} CodeTerminates(v: nat)
    ensures VarintCode(v)[|VarintCode(v)| - 1] < 128
  {
    if v >= 128 { CodeTerminates(v / 128); }
  }

  /** Two different addresses with the same tag and data: the second tag byte of
      the first one is missing. */
  lemma DecodeAddrNotInjective(hash: bytes -> bytes) returns (a: string, b: string)
    requires IsHash(hash)
    ensures a != b && AddressOf(hash, a) == AddressOf(hash, b) == Some((1, []))
  {
    hide Payload, EncodeSpec, ReadFrom;
    var long: bytes, short: bytes := [129], [1];
    a, b := EncodeSpec(WithChecksum(hash, long)), EncodeSpec(WithChecksum(hash, short));
    PayloadRoundTrip(hash, long);
    PayloadRoundTrip(hash, short);
    OneByteTags(long, short);
  }

  lemma OneByteTags(long: bytes, short: bytes)
    requires long == [129] && short == [1]
    ensures ReadFrom(long, 0) == Done(1, 1) && ReadFrom(short, 0) == Done(1, 1)
    ensures long[1..] == [] && short[1..] == []
  {
    assert ReadFrom(long, 1) == Done(1, 0);
  }
}
