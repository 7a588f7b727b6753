/**
 * IS-IS PDU fixed-header encoding and size arithmetic (isisd/isis_pdu.c).
 *
 * The PDU type codes, header lengths and protocol discriminators are those
 * of ISO/IEC 10589 (section 9) and, for the flooding-scope LSP, RFC 7356;
 * the headers that define them in the daemon are not part of this model.
 */
module IsisPdu {

  type byte = x: int | 0 <= x < 256
  type u16 = x: int | 0 <= x < 0x1_0000
  type u32 = x: int | 0 <= x < 0x1_0000_0000

  /** Network layer protocol identifiers */
  const ISO10589_ISIS: byte := 0x83
  const ISO9542_ESIS: byte := 0x82

  /** PDU type codes */
  const L1_LAN_HELLO: byte := 15
  const L2_LAN_HELLO: byte := 16
  const P2P_HELLO: byte := 17
  const L1_LINK_STATE: byte := 18
  const L2_LINK_STATE: byte := 20
  const FS_LINK_STATE: byte := 10
  const L1_COMPLETE_SEQ_NUM: byte := 24
  const L2_COMPLETE_SEQ_NUM: byte := 25
  const L1_PARTIAL_SEQ_NUM: byte := 26
  const L2_PARTIAL_SEQ_NUM: byte := 27

  /** Lengths of the type-specific header parts and of the common fixed header */
  const ISIS_FIXED_HDR_LEN := 8
  const ISIS_LANHELLO_HDRLEN := 19
  const ISIS_P2PHELLO_HDRLEN := 12
  const ISIS_LSP_HDR_LEN := 19
  const ISIS_CSNP_HDRLEN := 25
  const ISIS_PSNP_HDRLEN := 9

  const ISIS_SYS_ID_LEN := 6

  /** The PDU types `pdu_size` knows. */
  predicate KnownType(t: byte)
  {
    t in {L1_LAN_HELLO, L2_LAN_HELLO, P2P_HELLO, L1_LINK_STATE, L2_LINK_STATE, FS_LINK_STATE,
          L1_COMPLETE_SEQ_NUM, L2_COMPLETE_SEQ_NUM, L1_PARTIAL_SEQ_NUM, L2_PARTIAL_SEQ_NUM}
  }

  datatype Option<T> = None | Some(value: T)

  /**
   * `pdu_size`: the whole header length (fixed part plus type-specific part)
   * of a known PDU type; `None` stands for the error return, which leaves the
   * output untouched.
   */
  function PduSize(t: byte): (size: Option<byte>)
    ensures size.Some? <==> KnownType(t)
    ensures size.Some? ==> ISIS_FIXED_HDR_LEN < size.value <= ISIS_FIXED_HDR_LEN + ISIS_CSNP_HDRLEN
    ensures t in {L1_LAN_HELLO, L2_LAN_HELLO} ==> size == Some(ISIS_FIXED_HDR_LEN + ISIS_LANHELLO_HDRLEN)
    ensures t == P2P_HELLO ==> size == Some(ISIS_FIXED_HDR_LEN + ISIS_P2PHELLO_HDRLEN)
    ensures t in {L1_LINK_STATE, L2_LINK_STATE, FS_LINK_STATE} ==> size == Some(ISIS_FIXED_HDR_LEN + ISIS_LSP_HDR_LEN)
    ensures t in {L1_COMPLETE_SEQ_NUM, L2_COMPLETE_SEQ_NUM} ==> size == Some(ISIS_FIXED_HDR_LEN + ISIS_CSNP_HDRLEN)
    ensures t in {L1_PARTIAL_SEQ_NUM, L2_PARTIAL_SEQ_NUM} ==> size == Some(ISIS_FIXED_HDR_LEN + ISIS_PSNP_HDRLEN)
  {
    var hdr :=
      if t == L1_LAN_HELLO || t == L2_LAN_HELLO then Some(ISIS_LANHELLO_HDRLEN)
      else if t == P2P_HELLO then Some(ISIS_P2PHELLO_HDRLEN)
      else if t == L1_LINK_STATE || t == L2_LINK_STATE || t == FS_LINK_STATE then Some(ISIS_LSP_HDR_LEN)
      else if t == L1_COMPLETE_SEQ_NUM || t == L2_COMPLETE_SEQ_NUM then Some(ISIS_CSNP_HDRLEN)
      else if t == L1_PARTIAL_SEQ_NUM || t == L2_PARTIAL_SEQ_NUM then Some(ISIS_PSNP_HDRLEN)
      else None;
    if hdr.None? then None else Some(hdr.value + ISIS_FIXED_HDR_LEN)
  }

  /** The eight bytes `fill_fixed_hdr` writes for a known PDU type. */
  function FixedHeader(t: byte): (h: seq<byte>)
    requires KnownType(t)
    ensures |h| == ISIS_FIXED_HDR_LEN
    ensures h[0] == ISO10589_ISIS && Some(h[1]) == PduSize(t) && h[4] == t
    ensures h[2] == 1 && h[5] == 1
    ensures h[3] == 0 && h[6] == 0 && h[7] == 0
  {
    [ISO10589_ISIS, PduSize(t).value, 1, 0, t, 1, 0, 0]
  }

  /**
   * A byte stream: `data` holds the bytes up to the end pointer `endp`,
   * `getp` is the read position and `size` the capacity.
   */
  class Stream {
    var data: seq<byte>
    var getp: nat
    const size: nat

    ghost predicate Valid()
      reads this
    {
      getp <= |data| <= size
    }

    function Endp(): nat
      reads this
    {
      |data|
    }

    constructor (size: nat)
      ensures Valid() && data == [] && getp == 0 && this.size == size
    {
      this.size := size;
      data := [];
      getp := 0;
    }

    /** `stream_putc` */
    method Putc(b: byte)
      requires Valid() && |data| < size
      modifies this
      ensures Valid() && data == old(data) + [b] && getp == old(getp)
    {
      data := data + [b];
    }

    /**
     * `fill_fixed_hdr`: the header of a PDU of type `t`. An unknown type is
     * an assertion failure in the daemon, so it is excluded here.
     */
    method FillFixedHdr(t: byte)
      requires Valid() && KnownType(t) && |data| + ISIS_FIXED_HDR_LEN <= size
      modifies this
      ensures Valid() && data == old(data) + FixedHeader(t) && getp == old(getp)
    {
      var length := PduSize(t).value;
      Putc(ISO10589_ISIS);
      Putc(length);
      Putc(1);
      Putc(0);
      Putc(t);
      Putc(1);
      Putc(0);
      Putc(0);
    }

    /**
     * `pdu_len_validate`: a length field below the read position, above the
     * circuit MTU or past the received data is rejected (1); otherwise the
     * data is cut to the announced length.
     */
    method PduLenValidate(pduLen: u16, mtu: nat) returns (r: int)
      requires Valid()
      modifies this
      ensures Valid() && getp == old(getp)
      ensures r == 1 <==> pduLen < old(getp) || pduLen > mtu || pduLen > |old(data)|
      ensures r == 0 || r == 1
      ensures r == 1 ==> data == old(data)
      ensures r == 0 ==> Endp() == pduLen && data == old(data)[..pduLen]
    {
      if pduLen < getp || pduLen > mtu || pduLen > |data| {
        return 1;
      }
      if pduLen < |data| {
        data := data[..pduLen];
      }
      return 0;
    }
  }

  /** What `isis_handle_pdu` does with a received PDU after the header checks. */
  datatype Verdict =
    | IsisError
    | IsisWarning
    | ProcessHello(pduType: byte)
    | ProcessLsp(pduType: byte, maxAreaAddrs: byte)
    | ProcessSnp(pduType: byte)

  /**
   * The checks of `isis_handle_pdu` up to the header length: an IS-IS PDU
   * of version 1, an ID length of 0 or 6, and a known type whose header
   * length is the one in the length field.
   */
  predicate HeaderSane(data: seq<byte>)
  {
    |data| >= ISIS_FIXED_HDR_LEN && data[0] == ISO10589_ISIS && data[2] == 1 &&
    (data[3] == 0 || data[3] == ISIS_SYS_ID_LEN) && PduSize(data[4] % 32) == Some(data[1])
  }

  /** The maximum area addresses field disagrees with this system's, for a type that carries it. */
  predicate MaxAreaMismatch(data: seq<byte>, ownMaxAreaAddrs: byte)
    requires |data| >= ISIS_FIXED_HDR_LEN
  {
    data[4] % 32 != FS_LINK_STATE && data[7] != 0 && data[7] != ownMaxAreaAddrs
  }

  /** Every header check passes: the whole header was received, version 2 is 1, the circuit is active and the area counts agree. */
  predicate Accepted(data: seq<byte>, passive: bool, ownMaxAreaAddrs: byte)
  {
    HeaderSane(data) && |data| >= data[1] && data[5] == 1 && !passive && !MaxAreaMismatch(data, ownMaxAreaAddrs)
  }

  /** The handler for each known PDU type: hellos, LSPs (with the received area count) and sequence-number PDUs. */
  function Handler(t: byte, maxAreaAddrs: byte): Verdict
    requires KnownType(t)
  {
    if t in {L1_LAN_HELLO, L2_LAN_HELLO, P2P_HELLO} then ProcessHello(t)
    else if t in {L1_LINK_STATE, L2_LINK_STATE, FS_LINK_STATE} then ProcessLsp(t, maxAreaAddrs)
    else ProcessSnp(t)
  }

  /**
   * The header checks of `isis_handle_pdu` on the received bytes `data`:
   * a `Process…` verdict names the handler the PDU is passed to.
   */
  function HandlePdu(data: seq<byte>, passive: bool, fabricd: bool, ownMaxAreaAddrs: byte): (v: Verdict)
    ensures |data| < ISIS_FIXED_HDR_LEN ==> v == IsisError
    ensures |data| >= ISIS_FIXED_HDR_LEN && data[0] != ISO10589_ISIS ==> v == IsisError
    ensures |data| >= ISIS_FIXED_HDR_LEN && data[0] == ISO10589_ISIS && data[2] != 1 ==> v == IsisWarning
    ensures (|data| >= ISIS_FIXED_HDR_LEN && data[0] == ISO10589_ISIS && data[2] == 1 &&
             data[3] != 0 && data[3] != ISIS_SYS_ID_LEN) ==> v == IsisError
    ensures (|data| >= ISIS_FIXED_HDR_LEN && data[0] == ISO10589_ISIS && data[2] == 1 &&
             (data[3] == 0 || data[3] == ISIS_SYS_ID_LEN) && !KnownType(data[4] % 32)) ==> v == IsisWarning
    ensures (|data| >= ISIS_FIXED_HDR_LEN && data[0] == ISO10589_ISIS && data[2] == 1 &&
             (data[3] == 0 || data[3] == ISIS_SYS_ID_LEN) && KnownType(data[4] % 32) &&
             PduSize(data[4] % 32) != Some(data[1])) ==> v == IsisError
    ensures HeaderSane(data) && |data| < data[1] ==> v == IsisError
    ensures HeaderSane(data) && |data| >= data[1] && data[5] != 1 ==> v == IsisWarning
    ensures HeaderSane(data) && |data| >= data[1] && data[5] == 1 && passive ==> v == IsisWarning
    ensures (HeaderSane(data) && |data| >= data[1] && data[5] == 1 && !passive &&
             MaxAreaMismatch(data, ownMaxAreaAddrs)) ==> v == IsisError
    ensures Accepted(data, passive, ownMaxAreaAddrs) ==>
      v == if fabricd && FabricdRefuses(data[4] % 32) then IsisError else Handler(data[4] % 32, data[7])
    ensures !v.IsisError? && !v.IsisWarning? ==>
      |data| >= ISIS_FIXED_HDR_LEN && data[0] == ISO10589_ISIS && data[2] == 1 &&
      (data[3] == 0 || data[3] == ISIS_SYS_ID_LEN) &&
      PduSize(data[4] % 32) == Some(data[1]) && |data| >= data[1] && data[5] == 1 && !passive &&
      v.pduType == data[4] % 32 &&
      (v.pduType == FS_LINK_STATE || data[7] == 0 || data[7] == ownMaxAreaAddrs)
  {
    if |data| < ISIS_FIXED_HDR_LEN then IsisError
    else
      var idrp, length, version1, idLen := data[0], data[1], data[2], data[3];
      var pduType: byte := data[4] % 32;
      var version2, maxAreaAddrs := data[5], data[7];
      if idrp == ISO9542_ESIS then IsisError
      else if idrp != ISO10589_ISIS then IsisError
      else if version1 != 1 then IsisWarning
      else if idLen != 0 && idLen != ISIS_SYS_ID_LEN then IsisError
      else
        var expected := PduSize(pduType);
        if expected.None? then IsisWarning
        else if length != expected.value then IsisError
        else if |data| < length then IsisError
        else if version2 != 1 then IsisWarning
        else if passive then IsisWarning
        else if pduType != FS_LINK_STATE && maxAreaAddrs != 0 && maxAreaAddrs != ownMaxAreaAddrs then IsisError
        else if pduType in {L1_LAN_HELLO, L2_LAN_HELLO, P2P_HELLO} then
          if fabricd && pduType != P2P_HELLO then IsisError else ProcessHello(pduType)
        else if pduType in {L1_LINK_STATE, L2_LINK_STATE, FS_LINK_STATE} then
          if fabricd && pduType != L2_LINK_STATE && pduType != FS_LINK_STATE then IsisError
          else ProcessLsp(pduType, maxAreaAddrs)
        else ProcessSnp(pduType)
  }

  /** Whether a daemon in `fabricd` mode refuses this PDU type. */
  predicate FabricdRefuses(t: byte)
  {
    t in {L1_LAN_HELLO, L2_LAN_HELLO, L1_LINK_STATE}
  }

  /**
   * Round trip: a header written by `fill_fixed_hdr`, followed by at least
   * the rest of the type's header, passes every check and reaches the
   * handler for its type.
   */
  lemma FixedHeaderAccepted(t: byte, rest: seq<byte>, fabricd: bool, ownMaxAreaAddrs: byte)
    requires KnownType(t)
    requires ISIS_FIXED_HDR_LEN + |rest| >= PduSize(t).value
    requires !(fabricd && FabricdRefuses(t))
    ensures var v := HandlePdu(FixedHeader(t) + rest, false, fabricd, ownMaxAreaAddrs);
      (t in {L1_LAN_HELLO, L2_LAN_HELLO, P2P_HELLO} ==> v == ProcessHello(t)) &&
      (t in {L1_LINK_STATE, L2_LINK_STATE, FS_LINK_STATE} ==> v == ProcessLsp(t, 0)) &&
      (t in {L1_COMPLETE_SEQ_NUM, L2_COMPLETE_SEQ_NUM, L1_PARTIAL_SEQ_NUM, L2_PARTIAL_SEQ_NUM} ==> v == ProcessSnp(t))
  {
    var d := FixedHeader(t) + rest;
    assert d[..ISIS_FIXED_HDR_LEN] == FixedHeader(t);
    assert d[4] % 32 == t;
  }

  /** A passive circuit answers every well-formed header with a warning. */
  lemma PassiveWarns(t: byte, rest: seq<byte>, fabricd: bool, ownMaxAreaAddrs: byte)
    requires KnownType(t)
    requires ISIS_FIXED_HDR_LEN + |rest| >= PduSize(t).value
    ensures HandlePdu(FixedHeader(t) + rest, true, fabricd, ownMaxAreaAddrs) == IsisWarning
  {
    var d := FixedHeader(t) + rest;
    assert d[..ISIS_FIXED_HDR_LEN] == FixedHeader(t);
    assert d[4] % 32 == t;
  }

  /**
   * The hello holdtime of `put_hello_hdr`: the product is computed in 32
   * bits and then clamped to the 16-bit field.
   */
  function Holdtime(multiplier: u16, interval: u32): (h: u16)
    ensures multiplier * interval < 0x1_0000_0000 ==>
      h == if multiplier * interval <= 0xffff then multiplier * interval else 0xffff
    ensures multiplier * interval >= 0x1_0000_0000 ==> h == Holdtime(1, (multiplier * interval) % 0x1_0000_0000)
  {
    var product := multiplier * interval;
    WrapBelow(product);
    var holdtime := product % 0x1_0000_0000;
    if holdtime > 0xffff then 0xffff else holdtime
  }

  /** A 32-bit product that fits is left as it is. */
  lemma WrapBelow(p: nat)
    ensures p < 0x1_0000_0000 ==> p % 0x1_0000_0000 == p
  {
  }

  /** A product of 2^32 or more wraps before the clamp, to a holdtime of zero or of 80 here. */
  lemma HoldtimeWraps()
    ensures Holdtime(2, 0x8000_0000) == 0 && Holdtime(16, 0x1000_0005) == 80
  {
  }

  /** Room for one LSP entry: lifetime, LSP ID, sequence number and checksum. */
  const LSP_ENTRIES_LEN := 10 + ISIS_SYS_ID_LEN
  /** The largest LSP entries TLV, its type and length bytes included. */
  const MAX_LSP_ENTRIES_TLV_SIZE := 255

  /**
   * `get_max_lsp_count`: how many LSP entries fit in `size` bytes of TLVs,
   * filling whole TLVs first and then one partial TLV.
   */
  function GetMaxLspCount(size: u16): (count: u16)
    ensures LSP_ENTRIES_LEN * count + 2 * LspTlvCount(size) <= size
  {
    var tlvCount := size / MAX_LSP_ENTRIES_TLV_SIZE;
    var lspCount := tlvCount * (MAX_LSP_ENTRIES_TLV_SIZE / LSP_ENTRIES_LEN);
    var remaining := size % MAX_LSP_ENTRIES_TLV_SIZE;
    LspSizeSplit(size);
    if remaining - 2 >= LSP_ENTRIES_LEN then
      assert (remaining - 2) / LSP_ENTRIES_LEN <= 15;
      lspCount + (remaining - 2) / LSP_ENTRIES_LEN
    else lspCount
  }

  /** A size is a number of whole 255-byte TLVs and a remainder. */
  lemma LspSizeSplit(size: u16)
    ensures size == MAX_LSP_ENTRIES_TLV_SIZE * (size / MAX_LSP_ENTRIES_TLV_SIZE) + size % MAX_LSP_ENTRIES_TLV_SIZE
    ensures size / MAX_LSP_ENTRIES_TLV_SIZE <= 257 && size % MAX_LSP_ENTRIES_TLV_SIZE < MAX_LSP_ENTRIES_TLV_SIZE
  {
  }

  /** The number of TLVs the entries counted by `GetMaxLspCount` occupy. */
  function LspTlvCount(size: u16): nat
  {
    size / MAX_LSP_ENTRIES_TLV_SIZE +
    if size % MAX_LSP_ENTRIES_TLV_SIZE - 2 >= LSP_ENTRIES_LEN then 1 else 0
  }

  /** More room never fits fewer entries. */
  lemma GetMaxLspCountMonotonic(a: u16, b: u16)
    requires a <= b
    ensures GetMaxLspCount(a) <= GetMaxLspCount(b)
  {
    var M := MAX_LSP_ENTRIES_TLV_SIZE;
    LspSizeSplit(a);
    LspSizeSplit(b);
    if a / M == b / M {
      LastTlvEntriesMonotonic(a % M, b % M);
    } else {
      LastTlvEntriesMonotonic(a % M, M - 1);
    }
  }

  /** The entries of the last, partial TLV: none, or as many as fit after its two header bytes. */
  function LastTlvEntries(remaining: int): int
  {
    if remaining - 2 >= LSP_ENTRIES_LEN then (remaining - 2) / LSP_ENTRIES_LEN else 0
  }

  /** A longer remainder holds no fewer entries, and a remainder below 255 bytes holds at most 15. */
  lemma LastTlvEntriesMonotonic(x: int, y: int)
    requires 0 <= x <= y < MAX_LSP_ENTRIES_TLV_SIZE
    ensures 0 <= LastTlvEntries(x) <= LastTlvEntries(y) <= 15
  {
  }

  /** The last byte of `s` below 0xff, if any. */
  function LastBelowFF(s: seq<byte>): (k: Option<nat>)
    ensures k.None? <==> forall i :: 0 <= i < |s| ==> s[i] == 0xff
    ensures k.Some? ==>
      (k.value < |s| && s[k.value] < 0xff && forall i :: k.value < i < |s| ==> s[i] == 0xff)
  {
    if s == [] then None
    else if s[|s| - 1] < 0xff then Some(|s| - 1)
    else
      var k := LastBelowFF(s[..|s| - 1]);
      assert forall i :: 0 <= i < |s| - 1 ==> s[..|s| - 1][i] == s[i];
      k
  }

  /** An LSP ID range bound: system ID, pseudonode ID and fragment number. */
  const LSP_ID_LEN := ISIS_SYS_ID_LEN + 2

  /**
   * The start-ID advance of `send_csnp` as written: copy `stop` and add one
   * to its last byte below 0xff, leaving the 0xff bytes after it as they
   * are; `loop` is false when every byte is 0xff.
   */
  method AdvanceStartAsWritten(start: array<byte>, stop: seq<byte>) returns (loop: bool)
    requires start.Length == LSP_ID_LEN && |stop| == LSP_ID_LEN
    modifies start
    ensures var k := LastBelowFF(stop);
      (loop <==> k.Some?) &&
      start[..] == if k.None? then stop else stop[k.value := stop[k.value] + 1]
  {
    var n := 0;
    while n < LSP_ID_LEN
      invariant 0 <= n <= LSP_ID_LEN
      invariant forall j :: 0 <= j < n ==> start[j] == stop[j]
    {
      start[n] := stop[n];
      n := n + 1;
    }
    assert start[..] == stop;
    loop := false;
    var i := LSP_ID_LEN - 1;
    while i >= 0
      invariant -1 <= i < LSP_ID_LEN
      invariant start[..] == stop
      invariant forall j :: i < j < LSP_ID_LEN ==> stop[j] == 0xff
    {
      if start[i] < 0xff {
        start[i] := start[i] + 1;
        loop := true;
        return;
      }
      i := i - 1;
    }
  }

  /** The big-endian value of a byte string. */
  function BigEndian(s: seq<byte>): nat
  {
    if s == [] then 0 else BigEndian(s[..|s| - 1]) * 256 + s[|s| - 1]
  }

  /** The as-written advance from `..01 ff` yields `..02 ff`, not the successor `..02 00`. */
  lemma AdvanceSkipsIds()
    ensures var stop: seq<byte> := [0, 0, 0, 0, 0, 0, 1, 0xff];
      var k := LastBelowFF(stop);
      k == Some(6) &&
      BigEndian(stop[k.value := stop[k.value] + 1]) == BigEndian(stop) + 256
  {
    var stop: seq<byte> := [0, 0, 0, 0, 0, 0, 1, 0xff];
    assert stop[..7][..6] == [0, 0, 0, 0, 0, 0];
    var t := stop[6 := 2];
    assert t[..7][..6] == [0, 0, 0, 0, 0, 0];
    assert stop[..7][6] == 1 && t[..7][6] == 2;
    assert BigEndian([0, 0, 0, 0, 0, 0]) == 0 by {
      assert [0, 0, 0, 0, 0, 0][..5] == [0, 0, 0, 0, 0];
      assert [0, 0, 0, 0, 0][..4] == [0, 0, 0, 0];
      assert [0, 0, 0, 0][..3] == [0, 0, 0];
      assert [0, 0, 0][..2] == [0, 0];
      assert [0, 0][..1] == [0];
      assert [0][..0] == [];
    }
  }

  /** `s` plus one, as a big-endian number: trailing 0xff bytes wrap to 0. */
  function Increment(s: seq<byte>): (r: seq<byte>)
    requires exists i :: 0 <= i < |s| && s[i] < 0xff
    ensures |r| == |s| && BigEndian(r) == BigEndian(s) + 1
  {
    var k := LastBelowFF(s).value;
    var r := s[..k] + [s[k] + 1] + seq(|s| - k - 1, _ => 0);
    IncrementValue(s, k);
    r
  }

  lemma {:induction false} IncrementValue(s: seq<byte>, k: nat)
    requires k < |s| && s[k] < 0xff && forall i :: k < i < |s| ==> s[i] == 0xff
    ensures BigEndian(s[..k] + [s[k] + 1] + seq(|s| - k - 1, _ => 0)) == BigEndian(s) + 1
    decreases |s|
  {
    var r := s[..k] + [s[k] + 1] + seq(|s| - k - 1, _ => 0);
    if k == |s| - 1 {
      assert r[..|r| - 1] == s[..|s| - 1];
    } else {
      var s' := s[..|s| - 1];
      IncrementValue(s', k);
      assert r[..|r| - 1] == s'[..k] + [s'[k] + 1] + seq(|s'| - k - 1, _ => 0);
    }
  }

  /**
   * The start-ID advance with the carry: the next CSNP starts right after
   * `stop`, so no LSP ID between two consecutive ranges is left uncovered.
   */
  method AdvanceStart(start: array<byte>, stop: seq<byte>) returns (loop: bool)
    requires start.Length == LSP_ID_LEN && |stop| == LSP_ID_LEN
    modifies start
    ensures loop <==> exists i :: 0 <= i < |stop| && stop[i] < 0xff
    ensures loop ==> start[..] == Increment(stop) && BigEndian(start[..]) == BigEndian(stop) + 1
  {
    var n := 0;
    while n < LSP_ID_LEN
      invariant 0 <= n <= LSP_ID_LEN
      invariant forall j :: 0 <= j < n ==> start[j] == stop[j]
    {
      start[n] := stop[n];
      n := n + 1;
    }
    loop := false;
    var i := LSP_ID_LEN - 1;
    while i >= 0
      invariant -1 <= i < LSP_ID_LEN
      invariant forall j :: 0 <= j <= i ==> start[j] == stop[j]
      invariant forall j :: i < j < LSP_ID_LEN ==> stop[j] == 0xff && start[j] == 0
    {
      if start[i] < 0xff {
        start[i] := start[i] + 1;
        loop := true;
        assert LastBelowFF(stop) == Some(i);
        assert start[..] == stop[..i] + [stop[i] + 1] + seq(LSP_ID_LEN - i - 1, _ => 0);
        return;
      }
      start[i] := 0;
      i := i - 1;
    }
  }
}
