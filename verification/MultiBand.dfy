/** fst_manager.c: the walk over the multi-band elements a peer sent, as the supplicant dumps them in
    hexadecimal, and exactly when it leaves its buffer. Element layout: multi-band element of
    IEEE Std 802.11ad-2012. */
module MultiBand {
  import opened FstTypes

  const WLAN_EID_MULTI_BAND: bv8 := 158
  const MB_STA_ROLE_AP: bv8 := 0
  const MB_STA_ROLE_NON_PCP_NON_AP: bv8 := 4
  const MB_CTRL_ROLE_MASK: bv8 := 7
  const MB_CTRL_STA_MAC_PRESENT: bv8 := 8
  const MB_CTRL_OFFSET := 2
  const BSSID_OFFSET := 6
  const MB_IE_SIZE := 24   // sizeof(struct multi_band_ie), without the optional fields
  const ETH_ALEN := 6

  function MacAt(s: seq<bv8>, at: nat): Mac
    requires at + ETH_ALEN <= |s|
  {
    Mac(s[at], s[at + 1], s[at + 2], s[at + 3], s[at + 4], s[at + 5])
  }

  // ---------------------------------------------------------------- elements, as the standard lays them out

  datatype Element = Element(eid: bv8, len: bv8, body: seq<bv8>) {
    ghost predicate Valid() { |body| == len as int }

    ghost predicate IsMultiBand() { eid == WLAN_EID_MULTI_BAND && |body| >= MB_IE_SIZE - 2 }

    /** The address this multi-band element advertises: the BSSID in an AP role; the station address that
        follows the fixed part in a non-AP role, when present. */
    ghost function Advertised(): Option<Mac>
      requires IsMultiBand()
    {
      var ctrl := body[MB_CTRL_OFFSET - 2];
      if ctrl & MB_CTRL_ROLE_MASK == MB_STA_ROLE_AP then
        Some(MacAt(body, BSSID_OFFSET - 2))
      else if ctrl & MB_CTRL_ROLE_MASK == MB_STA_ROLE_NON_PCP_NON_AP && ctrl & MB_CTRL_STA_MAC_PRESENT != 0
              && |body| >= MB_IE_SIZE - 2 + ETH_ALEN then
        Some(MacAt(body, MB_IE_SIZE - 2))
      else
        None
    }

    function Encode(): (s: seq<bv8>)
      requires Valid()
      ensures |s| == 2 + |body|
    {
      [eid, len] + body
    }
  }

  ghost function EncodeAll(es: seq<Element>): seq<bv8>
    requires forall e | e in es :: e.Valid()
  {
    if es == [] then [] else es[0].Encode() + EncodeAll(es[1..])
  }

  /** Some element of the leading run of multi-band elements advertises `other`. */
  ghost predicate LeadingRunAdvertises(es: seq<Element>, other: Mac) {
    exists k | 0 <= k < |es| ::
      (forall j | 0 <= j <= k :: es[j].IsMultiBand()) && es[k].Advertised() == Some(other)
  }

  lemma {:induction false} LeadingRunStep(es: seq<Element>, other: Mac)
    requires es != []
    ensures LeadingRunAdvertises(es, other) <==>
            es[0].IsMultiBand() && (es[0].Advertised() == Some(other) || LeadingRunAdvertises(es[1..], other))
  {
    var rest := es[1..];
    if LeadingRunAdvertises(es, other) {
      var k :| 0 <= k < |es| && (forall j | 0 <= j <= k :: es[j].IsMultiBand()) && es[k].Advertised() == Some(other);
      assert es[0].IsMultiBand();
      if k > 0 {
        assert forall j | 0 <= j <= k - 1 :: rest[j] == es[j + 1];
        assert rest[k - 1].Advertised() == Some(other);
      }
    }
    if es[0].IsMultiBand() && LeadingRunAdvertises(rest, other) {
      var k :| 0 <= k < |rest| && (forall j | 0 <= j <= k :: rest[j].IsMultiBand()) && rest[k].Advertised() == Some(other);
      assert forall j | 1 <= j <= k + 1 :: es[j] == rest[j - 1];
      assert es[k + 1].Advertised() == Some(other);
    }
  }

  // ---------------------------------------------------------------- the walk, on bytes

  /** A multi-band element starts at `at`. */
  predicate Starts(s: seq<bv8>, at: nat)
    requires at + 2 <= |s|
  {
    s[at] == WLAN_EID_MULTI_BAND && 2 + s[at + 1] as int >= MB_IE_SIZE
  }

  /** Where the element that starts at `at` says it ends. */
  function Next(s: seq<bv8>, at: nat): nat
    requires at + 2 <= |s|
  {
    at + 2 + s[at + 1] as int
  }

  predicate HasStaAddr(s: seq<bv8>, at: nat)
    requires at + MB_CTRL_OFFSET < |s|
  {
    s[at + MB_CTRL_OFFSET] & MB_CTRL_STA_MAC_PRESENT != 0 && 2 + s[at + 1] as int >= MB_IE_SIZE + ETH_ALEN
  }

  /** What is read of the element at `at`, beyond its first two bytes, lies inside the buffer. */
  predicate ReadsInside(s: seq<bv8>, at: nat)
    requires at + 2 <= |s|
  {
    && at + MB_CTRL_OFFSET < |s|
    && var ctrl := s[at + MB_CTRL_OFFSET];
       var role := ctrl & MB_CTRL_ROLE_MASK;
       && (role == MB_STA_ROLE_AP ==> at + BSSID_OFFSET + ETH_ALEN <= |s|)
       && (role == MB_STA_ROLE_NON_PCP_NON_AP && HasStaAddr(s, at) ==> at + MB_IE_SIZE + ETH_ALEN <= |s|)
  }

  /** fst_mgr_get_addr_from_mbie, on the element at `at`. */
  function AddrFromMbie(s: seq<bv8>, at: nat): Option<Mac>
    requires at + 2 <= |s| && ReadsInside(s, at)
  {
    var ctrl := s[at + MB_CTRL_OFFSET];
    var role := ctrl & MB_CTRL_ROLE_MASK;
    if role == MB_STA_ROLE_AP then
      Some(MacAt(s, at + BSSID_OFFSET))
    else if role == MB_STA_ROLE_NON_PCP_NON_AP then
      if HasStaAddr(s, at) then Some(MacAt(s, at + MB_IE_SIZE)) else None
    else
      None
  }

  /** What the loop answers from position `at` on; None when it reads past the end of the buffer. An element that
      says it ends beyond the buffer ends the loop, its remaining size being negative. */
  function Walk(s: seq<bv8>, at: nat, other: Mac): Option<bool>
    requires at <= |s|
    decreases |s| - at
  {
    if at + 2 > |s| || !Starts(s, at) then Some(false)
    else if !ReadsInside(s, at) then None
    else if AddrFromMbie(s, at) == Some(other) then Some(true)
    else if Next(s, at) > |s| then Some(false)
    else Walk(s, Next(s, at), other)
  }

  /** The first element of an encoded list, seen through the byte-level accessors. */
  lemma {:induction false} FirstElement(pre: seq<bv8>, e: Element, rest: seq<bv8>)
    requires e.Valid()
    ensures var s := pre + e.Encode() + rest; var at := |pre|;
      && at + 2 <= |s|
      && (Starts(s, at) <==> e.IsMultiBand())
      && Next(s, at) == |pre + e.Encode()| <= |s|
      && (Starts(s, at) ==> ReadsInside(s, at) && AddrFromMbie(s, at) == e.Advertised())
  {
    var s, at := pre + e.Encode() + rest, |pre|;
    assert s[at] == e.eid && s[at + 1] == e.len;
    assert forall k | 0 <= k < |e.body| :: s[at + 2 + k] == e.body[k];
  }

  /** One iteration of the walk, on an element that starts at its position. */
  lemma {:induction false} WalkStep(pre: seq<bv8>, e: Element, rest: seq<bv8>, other: Mac)
    requires e.Valid()
    ensures var s := pre + e.Encode() + rest;
      Walk(s, |pre|, other) ==
        if !e.IsMultiBand() then Some(false)
        else if e.Advertised() == Some(other) then Some(true)
        else Walk(s, |pre + e.Encode()|, other)
  {
    hide Starts, AddrFromMbie, ReadsInside, Next;
    FirstElement(pre, e, rest);
  }

  /** For any concatenation of well-formed elements, the walk stays inside the buffer and answers true exactly
      when an element of the leading multi-band run advertises the address. */
  lemma {:induction false} WalkFindsAdvertisedAddress(pre: seq<bv8>, es: seq<Element>, other: Mac)
    requires forall e | e in es :: e.Valid()
    ensures Walk(pre + EncodeAll(es), |pre|, other) == Some(LeadingRunAdvertises(es, other))
    decreases |es|
  {
    hide Walk, LeadingRunAdvertises;
    var s := pre + EncodeAll(es);
    if es == [] {
      assert s == pre;
      WalkEnds(s, other);
      NoLeadingRun(other);
    } else {
      var e, rest := es[0], es[1..];
      var pre' := pre + e.Encode();
      assert s == pre' + EncodeAll(rest);
      WalkFindsAdvertisedAddress(pre', rest, other);
      WalkStep(pre, e, EncodeAll(rest), other);
      LeadingRunStep(es, other);
    }
  }

  lemma {:induction false} WalkEnds(s: seq<bv8>, other: Mac)
    ensures Walk(s, |s|, other) == Some(false)
  {
  }

  lemma {:induction false} NoLeadingRun(other: Mac)
    ensures !LeadingRunAdvertises([], other)
  {
  }

  // ---------------------------------------------------------------- the walk, on any bytes whatever

  /** Where the complete multi-band elements from `at` on end. */
  function RunEnd(s: seq<bv8>, at: nat): (end: nat)
    requires at <= |s|
    ensures at <= end <= |s|
    decreases |s| - at
  {
    if at + 2 <= |s| && Starts(s, at) && Next(s, at) <= |s| then RunEnd(s, Next(s, at)) else at
  }

  /** A multi-band element starts at `at` that the buffer does not hold entirely. */
  predicate Truncated(s: seq<bv8>, at: nat) {
    at + 2 <= |s| && Starts(s, at) && Next(s, at) > |s|
  }

  /** Some of `es` advertises `other`. */
  ghost predicate Advertises(es: seq<Element>, other: Mac)
    requires forall e | e in es :: e.IsMultiBand()
  {
    exists e | e in es :: e.Advertised() == Some(other)
  }

  /** The element at a position where a complete one starts. */
  function ElementAt(s: seq<bv8>, at: nat): Element
    requires at + 2 <= |s| && Next(s, at) <= |s|
  {
    Element(s[at], s[at + 1], s[at + 2..Next(s, at)])
  }

  lemma {:induction false} ElementThere(s: seq<bv8>, at: nat)
    requires at + 2 <= |s| && Starts(s, at) && Next(s, at) <= |s|
    ensures var e := ElementAt(s, at);
      e.Valid() && e.IsMultiBand() && s == s[..at] + e.Encode() + s[Next(s, at)..] && s[at..Next(s, at)] == e.Encode()
  {
    var e := ElementAt(s, at);
    assert s[at..at + 2] == [e.eid, e.len];
    assert s == s[..at] + (s[at..at + 2] + s[at + 2..Next(s, at)]) + s[Next(s, at)..];
  }

  /** The complete multi-band elements from `at` on. */
  function ElementsFrom(s: seq<bv8>, at: nat): (es: seq<Element>)
    requires at <= |s|
    decreases |s| - at
  {
    if at + 2 <= |s| && Starts(s, at) && Next(s, at) <= |s| then [ElementAt(s, at)] + ElementsFrom(s, Next(s, at)) else []
  }

  /** Any bytes whatever are some complete multi-band elements and a rest, and that decides what the walk does: it
      finds the address in one of them; or else it looks at the rest, and leaves the buffer exactly if the rest is a
      truncated element without the bytes that are read of it. */
  lemma {:induction false} WalkOnAnyBytes(s: seq<bv8>, at: nat, other: Mac)
    requires at <= |s|
    ensures var es, end := ElementsFrom(s, at), RunEnd(s, at);
      && (forall e | e in es :: e.Valid() && e.IsMultiBand()) && s[at..end] == EncodeAll(es)
      && Walk(s, at, other) ==
           if Advertises(es, other) then Some(true)
           else if !Truncated(s, end) then Some(false)
           else if !ReadsInside(s, end) then None
           else Some(AddrFromMbie(s, end) == Some(other))
    decreases |s| - at
  {
    hide Walk, Starts, AddrFromMbie, ReadsInside, Next, ElementAt, EncodeAll;
    if at + 2 <= |s| && Starts(s, at) && Next(s, at) <= |s| {
      var e, next, end := ElementAt(s, at), Next(s, at), RunEnd(s, at);
      var rest := ElementsFrom(s, next);
      ElementThere(s, at);
      FirstElement(s[..at], e, s[next..]);
      WalkOnAnyBytes(s, next, other);
      WalkStep(s[..at], e, s[next..], other);
      EncodeMore(e, rest);
      assert s[at..end] == s[at..next] + s[next..end];
      AdvertisesMore(e, rest, other);
    } else {
      WalkOnRest(s, at, other);
    }
  }

  lemma {:induction false} WalkOnRest(s: seq<bv8>, at: nat, other: Mac)
    requires at <= |s| && !(at + 2 <= |s| && Starts(s, at) && Next(s, at) <= |s|)
    ensures s[at..at] == EncodeAll([])
    ensures Walk(s, at, other) ==
      if !Truncated(s, at) then Some(false)
      else if !ReadsInside(s, at) then None
      else Some(AddrFromMbie(s, at) == Some(other))
  {
    hide AddrFromMbie, ReadsInside;
  }

  lemma {:induction false} EncodeMore(e: Element, rest: seq<Element>)
    requires e.Valid() && forall x | x in rest :: x.Valid()
    ensures (forall x | x in [e] + rest :: x.Valid()) && EncodeAll([e] + rest) == e.Encode() + EncodeAll(rest)
  {
    assert ([e] + rest)[1..] == rest;
  }

  lemma {:induction false} AdvertisesMore(e: Element, rest: seq<Element>, other: Mac)
    requires e.IsMultiBand() && forall x | x in rest :: x.IsMultiBand()
    ensures (forall x | x in [e] + rest :: x.IsMultiBand())
    ensures Advertises([e] + rest, other) <==> e.Advertised() == Some(other) || Advertises(rest, other)
  {
    if e.Advertised() == Some(other) {
      assert e in [e] + rest;
    }
  }

  // ---------------------------------------------------------------- hexstr2bin

  function HexDigit(c: char): Option<bv8> {
    if '0' <= c <= '9' then Some((c as int - '0' as int) as bv8)
    else if 'a' <= c <= 'f' then Some((c as int - 'a' as int + 10) as bv8)
    else if 'A' <= c <= 'F' then Some((c as int - 'A' as int + 10) as bv8)
    else None
  }

  function HexByte(hi: char, lo: char): Option<bv8> {
    var h, l := HexDigit(hi), HexDigit(lo);
    if h.Some? && l.Some? then Some((h.value << 4) | l.value) else None
  }

  /** The bytes of a hexadecimal dump of even length, or None when a character is not a hex digit. */
  function Unhex(hex: string): (r: Option<seq<bv8>>)
    requires |hex| % 2 == 0
    ensures r.Some? ==> |r.value| * 2 == |hex|
  {
    if hex == [] then Some([])
    else
      var b, rest := HexByte(hex[0], hex[1]), Unhex(hex[2..]);
      if b.Some? && rest.Some? then Some([b.value] + rest.value) else None
  }

  /** The dump is usable: an even number, at least two, of hex digits. */
  predicate Decodable(hex: string) {
    |hex| >= 2 && |hex| % 2 == 0 && Unhex(hex).Some?
  }

  /** What the dump of a peer says about the peer being known as `other`, too; None when its end is overread. */
  function DumpSays(hex: string, other: Mac): Option<bool> {
    if Decodable(hex) then Walk(Unhex(hex).value, 0, other) else Some(false)
  }

  /** The dump of a peer says that it is also known as `other`. */
  predicate DumpNames(hex: string, other: Mac) {
    DumpSays(hex, other) == Some(true)
  }

  /** The dump of a concatenation of well-formed elements names exactly the addresses its leading multi-band run
      advertises. */
  lemma {:induction false} DumpNamesAdvertisedAddresses(hex: string, es: seq<Element>, other: Mac)
    requires forall e | e in es :: e.Valid()
    requires Decodable(hex) && Unhex(hex).value == EncodeAll(es)
    ensures DumpSays(hex, other) == Some(LeadingRunAdvertises(es, other))
  {
    hide Walk, LeadingRunAdvertises, Unhex;
    WalkFindsAdvertisedAddress([], es, other);
    assert [] + EncodeAll(es) == EncodeAll(es);
  }

  /** After complete elements that do not advertise `other` comes one cut off before the bytes that are read of it. */
  ghost predicate CutShort(hex: string, other: Mac) {
    && Decodable(hex)
    && var s := Unhex(hex).value; var end := RunEnd(s, 0);
       && Truncated(s, end) && !ReadsInside(s, end)
       && !exists e | e in ElementsFrom(s, 0) :: e.IsMultiBand() && e.Advertised() == Some(other)
  }

  /** Exactly these dumps are overread. */
  lemma {:induction false} DumpOverreadIff(hex: string, other: Mac)
    ensures DumpSays(hex, other).None? <==> CutShort(hex, other)
  {
    hide Walk, RunEnd, ElementsFrom, ReadsInside, Unhex, Starts;
    if Decodable(hex) {
      WalkOnAnyBytes(Unhex(hex).value, 0, other);
    }
  }

  lemma {:induction false} TwoBytes()
    ensures HexByte('1', '6') == Some(22) && HexByte('9', 'e') == Some(158)
  {
  }

  lemma {:induction false} WalkHeadOnly(s: seq<bv8>, other: Mac)
    requires |s| == 2 && Starts(s, 0)
    ensures Walk(s, 0, other).None?
  {
  }

  /** Two bytes are enough, whatever the address asked for. */
  lemma {:induction false} TwoBytesAreOverread(other: Mac)
    ensures DumpSays("9e16", other).None?
  {
    hide Unhex, Walk, HexByte;
    var hex := "9e16";
    TwoBytes();
    assert hex[0] == '9' && hex[1] == 'e' && hex[2] == '1' && hex[3] == '6';
    UnhexOfTwo(hex, 158, 22);
    WalkHeadOnly([158, 22], other);
  }

  lemma {:induction false} UnhexOfTwo(hex: string, a: bv8, b: bv8)
    requires |hex| == 4 && HexByte(hex[0], hex[1]) == Some(a) && HexByte(hex[2], hex[3]) == Some(b)
    ensures Unhex(hex) == Some([a, b])
  {
    hide Unhex, HexByte;
    UnhexMore(hex);
    UnhexMore(hex[2..]);
    UnhexNothing();
    assert hex[2..][2..] == [];
    assert [b] + [] == [b] && [a] + [b] == [a, b];
  }

  // ---------------------------------------------------------------- what a supplicant writes

  function DigitOf(n: bv8): char
    requires n < 16
  {
    if n == 0 then '0' else if n == 1 then '1' else if n == 2 then '2' else if n == 3 then '3'
    else if n == 4 then '4' else if n == 5 then '5' else if n == 6 then '6' else if n == 7 then '7'
    else if n == 8 then '8' else if n == 9 then '9' else if n == 10 then 'a' else if n == 11 then 'b'
    else if n == 12 then 'c' else if n == 13 then 'd' else if n == 14 then 'e' else 'f'
  }

  /** The hexadecimal dump of `s`. */
  function HexOf(s: seq<bv8>): (hex: string)
    ensures |hex| == 2 * |s|
  {
    if s == [] then "" else [DigitOf(s[0] >> 4), DigitOf(s[0] & 15)] + HexOf(s[1..])
  }

  lemma {:induction false} DigitBack(n: bv8)
    requires n < 16
    ensures HexDigit(DigitOf(n)) == Some(n)
  {
    hide HexDigit, DigitOf;
    if n < 5 {
      LowDigitBack(n);
    } else if n < 10 {
      MidDigitBack(n);
    } else {
      LetterBack(n);
    }
  }

  lemma {:induction false} LowDigitBack(n: bv8)
    requires n < 5
    ensures HexDigit(DigitOf(n)) == Some(n)
  {
  }

  lemma {:induction false} MidDigitBack(n: bv8)
    requires 5 <= n < 10
    ensures HexDigit(DigitOf(n)) == Some(n)
  {
  }

  lemma {:induction false} LetterBack(n: bv8)
    requires 10 <= n < 16
    ensures HexDigit(DigitOf(n)) == Some(n)
  {
  }

  lemma {:induction false} NibblesOf(b: bv8)
    ensures ((b >> 4) << 4) | (b & 15) == b && b >> 4 < 16 && b & 15 < 16
  {
  }

  lemma {:induction false} ByteBack(b: bv8)
    ensures HexByte(DigitOf(b >> 4), DigitOf(b & 15)) == Some(b)
  {
    hide HexDigit, DigitOf;
    NibblesOf(b);
    DigitBack(b >> 4);
    DigitBack(b & 15);
  }

  /** A dump is read back. */
  lemma {:induction false} UnhexHexOf(s: seq<bv8>)
    ensures Unhex(HexOf(s)) == Some(s)
    decreases |s|
  {
    hide HexByte, DigitOf;
    if s != [] {
      var hex := HexOf(s);
      ByteBack(s[0]);
      UnhexHexOf(s[1..]);
      assert hex[2..] == HexOf(s[1..]);
      assert [s[0]] + s[1..] == s;
    }
  }

  /** Capital letters are digits, too. */
  function Upper(c: char): char {
    if 'a' <= c <= 'f' then (c as int - 'a' as int + 'A' as int) as char else c
  }

  function UpperCase(hex: string): (r: string)
    ensures |r| == |hex|
  {
    seq(|hex|, k requires 0 <= k < |hex| => Upper(hex[k]))
  }

  lemma {:induction false} UpperDigit(c: char)
    ensures HexDigit(Upper(c)) == HexDigit(c)
  {
    if 'a' <= c <= 'f' {
      var u := Upper(c);
      assert u as int - 'A' as int == c as int - 'a' as int && 'A' <= u <= 'F';
    }
  }

  /** The case of a dump's letters does not matter. */
  lemma {:induction false} CaseIsIgnored(hex: string)
    requires |hex| % 2 == 0
    ensures Unhex(UpperCase(hex)) == Unhex(hex)
    decreases |hex|
  {
    hide HexDigit, Upper;
    if hex != [] {
      UpperDigit(hex[0]);
      UpperDigit(hex[1]);
      CaseIsIgnored(hex[2..]);
      assert UpperCase(hex)[2..] == UpperCase(hex[2..]);
    } else {
      assert UpperCase(hex) == hex;
    }
  }

  /** A multi-band element of an access point with BSSID `a`. */
  function ApElement(a: Mac): Element {
    Element(WLAN_EID_MULTI_BAND, 22, [MB_STA_ROLE_AP, 0, 0, 0, a.b0, a.b1, a.b2, a.b3, a.b4, a.b5] + seq(12, _ => 0))
  }

  function ApDump(a: Mac): string {
    HexOf(ApElement(a).Encode())
  }

  /** Its dump names exactly that address. */
  lemma {:induction false} ApDumpNames(a: Mac, other: Mac)
    ensures DumpSays(ApDump(a), other) == Some(other == a)
  {
    hide Walk, Unhex, HexOf;
    var e := ApElement(a);
    UnhexHexOf(e.Encode());
    assert [e][1..] == [];
    assert EncodeAll([e]) == e.Encode() + [] == e.Encode();
    DumpNamesAdvertisedAddresses(ApDump(a), [e], other);
    assert e.Advertised() == Some(a);
    assert LeadingRunAdvertises([e], other) <==> other == a by {
      if other == a {
        assert [e][0].Advertised() == Some(other);
      }
    }
  }

  // ---------------------------------------------------------------- the source's loops

  lemma {:induction false} UnhexMore(hex: string)
    requires |hex| % 2 == 0 && |hex| >= 2
    ensures var b, rest := HexByte(hex[0], hex[1]), Unhex(hex[2..]);
      Unhex(hex) == if b.Some? && rest.Some? then Some([b.value] + rest.value) else None
  {
  }

  /** One byte more at the end. */
  lemma {:induction false} UnhexPrefix(hex: string, k: nat)
    requires |hex| % 2 == 0 && 2 * k + 2 <= |hex|
    ensures Unhex(hex[..2 * k + 2]) ==
      if Unhex(hex[..2 * k]).Some? && HexByte(hex[2 * k], hex[2 * k + 1]).Some?
      then Some(Unhex(hex[..2 * k]).value + [HexByte(hex[2 * k], hex[2 * k + 1]).value])
      else None
    decreases k
  {
    hide HexByte, Unhex;
    UnhexNothing();
    UnhexMore(hex[..2 * k + 2]);
    var b, last := HexByte(hex[0], hex[1]), HexByte(hex[2 * k], hex[2 * k + 1]);
    if k == 0 {
      assert hex[..2][2..] == [] && hex[..0] == [];
      assert b.Some? ==> [b.value] + [] == [] + [b.value];
    } else {
      UnhexPrefix(hex[2..], k - 1);
      UnhexMore(hex[..2 * k]);
      assert hex[2..][..2 * k] == hex[..2 * k + 2][2..];
      assert hex[2..][..2 * (k - 1)] == hex[..2 * k][2..];
      assert hex[2..][2 * (k - 1)] == hex[2 * k] && hex[2..][2 * (k - 1) + 1] == hex[2 * k + 1];
      var mid := Unhex(hex[..2 * k][2..]);
      if b.Some? && mid.Some? && last.Some? {
        BytesAssociative(b.value, mid.value, last.value);
      }
    }
  }

  lemma {:induction false} UnhexNothing()
    ensures Unhex([]) == Some([])
  {
  }

  lemma {:induction false} BytesAssociative(a: bv8, mid: seq<bv8>, b: bv8)
    ensures [a] + (mid + [b]) == ([a] + mid) + [b]
  {
  }

  /** A bad digit anywhere makes the whole dump unusable. */
  lemma {:induction false} UnhexBad(hex: string, k: nat)
    requires |hex| % 2 == 0 && 2 * k <= |hex| && Unhex(hex[..2 * k]).None?
    ensures Unhex(hex).None?
    decreases |hex| - 2 * k
  {
    if 2 * k == |hex| {
      assert hex[..2 * k] == hex;
    } else {
      UnhexPrefix(hex, k);
      UnhexBad(hex, k + 1);
    }
  }

  method HexStr2Bin(hex: string, buf: array<bv8>) returns (res: int)
    requires |hex| == 2 * buf.Length
    modifies buf
    ensures res == if Unhex(hex).Some? then 0 else -1
    ensures res == 0 ==> buf[..] == Unhex(hex).value
  {
    var k := 0;
    while k < buf.Length
      invariant 0 <= k <= buf.Length
      invariant Unhex(hex[..2 * k]) == Some(buf[..k])
    {
      UnhexPrefix(hex, k);
      var b := HexByte(hex[2 * k], hex[2 * k + 1]);
      if b.None? {
        UnhexBad(hex, k + 1);
        return -1;
      }
      buf[k] := b.value;
      assert buf[..k + 1] == buf[..k] + [b.value];
      k := k + 1;
    }
    assert hex[..2 * k] == hex && buf[..k] == buf[..];
    res := 0;
  }

  /** _fst_mgr_is_other_addr_in_mbies, given the dump (empty when the supplicant has none); None where the source
      would read past the end of what it allocated. */
  method IsOtherAddrInMbies(hex: string, other: Mac) returns (result: Option<bool>)
    ensures result == DumpSays(hex, other)
  {
    if |hex| < 2 || |hex| % 2 == 1 {
      return Some(false);
    }
    var mbies := new bv8[|hex| / 2];
    var bad := HexStr2Bin(hex, mbies);
    if bad != 0 {
      return Some(false);
    }
    ghost var s := mbies[..];
    var iter, size: int := 0, mbies.Length;
    while size >= 2
      invariant 0 <= iter && iter + size == mbies.Length
      invariant mbies[..] == s
      invariant Walk(s, 0, other) == if size < 0 then Some(false) else Walk(s, iter, other)
      decreases size
    {
      if mbies[iter] != WLAN_EID_MULTI_BAND || 2 + mbies[iter + 1] as int < MB_IE_SIZE {
        break;
      }
      if !ReadsInside(mbies[..], iter) {
        return None;
      }
      var addr := AddrFromMbie(mbies[..], iter);
      if addr == Some(other) {
        return Some(true);
      }
      var len := mbies[iter + 1] as int;
      iter := iter + (len + 2);
      size := size - (len + 2);
    }
    result := Some(false);
  }
}
