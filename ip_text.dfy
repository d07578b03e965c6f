/**
 * Reading back what `Display` writes: the text form of every IPv4 and IPv6
 * address parses to that address, and the text form of an IPv6 address is never
 * taken for an IPv4 address.
 */
module IpText {
  import opened Wrappers
  import opened Text
  import opened Net

  /** The digit loop reads a whole run of digits that ends the number. */
  lemma {:induction false} ReadDigitsOfRun(ds: string, rest: string, radix: nat, bound: nat, maxDigits: nat, acc: nat, count: nat)
    requires radix == 10 || radix == 16
    requires AllDigits(ds, radix) && (rest == [] || !IsDigit(rest[0], radix))
    requires acc < bound && Accumulate(acc, ds, radix) < bound && count + |ds| <= maxDigits
    ensures ReadDigits(ds + rest, radix, bound, maxDigits, acc, count) == Some((Accumulate(acc, ds, radix), count + |ds|, rest))
    decreases |ds|
  {
    if ds == [] {
      ReadDigitsStop(ds, rest, radix, bound, maxDigits, acc, count);
    } else {
      var next := FirstDigit(ds, radix, acc);
      ReadDigitsStep(ds, rest, radix, bound, maxDigits, acc, count);
      ReadDigitsOfRun(ds[1..], rest, radix, bound, maxDigits, next, count + 1);
    }
  }

  /** The digit loop stops at the first non-digit. */
  lemma ReadDigitsStop(ds: string, rest: string, radix: nat, bound: nat, maxDigits: nat, acc: nat, count: nat)
    requires radix == 10 || radix == 16
    requires ds == [] && (rest == [] || !IsDigit(rest[0], radix)) && acc < bound
    ensures ReadDigits(ds + rest, radix, bound, maxDigits, acc, count) == Some((acc, count + |ds|, rest))
  {
    assert ds + rest == rest;
  }

  /** Taking in the first digit of a run: the rest is a run with the same value. */
  lemma FirstDigit(ds: string, radix: nat, acc: nat) returns (next: nat)
    requires radix == 10 || radix == 16
    requires ds != [] && AllDigits(ds, radix)
    ensures next == acc * radix + ToDigit(ds[0], radix).value
    ensures AllDigits(ds[1..], radix) && IsDigit(ds[0], radix)
    ensures Accumulate(next, ds[1..], radix) == Accumulate(acc, ds, radix)
    ensures next <= Accumulate(acc, ds, radix)
  {
    next := acc * radix + ToDigit(ds[0], radix).value;
    AccumulateGrows(next, ds[1..], radix);
  }

  /** One digit of the digit loop, when the number still fits. */
  lemma ReadDigitsStep(ds: string, rest: string, radix: nat, bound: nat, maxDigits: nat, acc: nat, count: nat)
    requires radix == 10 || radix == 16
    requires ds != [] && IsDigit(ds[0], radix) && acc < bound && count < maxDigits
    requires acc * radix + ToDigit(ds[0], radix).value < bound
    ensures var next := acc * radix + ToDigit(ds[0], radix).value;
      ReadDigits(ds + rest, radix, bound, maxDigits, acc, count) == ReadDigits(ds[1..] + rest, radix, bound, maxDigits, next, count + 1)
  {
    var s := ds + rest;
    assert s[0] == ds[0] && s[1..] == ds[1..] + rest;
  }

  /** `read_number` reads back a number written by `ToRadix`, up to the first non-digit. */
  lemma ReadNumberOfToRadix(n: nat, rest: string, radix: nat, bound: nat, maxDigits: nat, allowZeroPrefix: bool)
    requires radix == 10 || radix == 16
    requires n < bound && |ToRadix(n, radix)| <= maxDigits
    requires rest == [] || !IsDigit(rest[0], radix)
    ensures ReadNumber(ToRadix(n, radix) + rest, radix, bound, maxDigits, allowZeroPrefix) == Some((n, rest))
  {
    var ds := ToRadix(n, radix);
    ValueOfToRadix(n, radix);
    ReadDigitsOfRun(ds, rest, radix, bound, maxDigits, 0, 0);
    assert (ds + rest)[0] == ds[0];
  }

  lemma ReadOctetOfDecimal(x: u8, rest: string)
    requires rest == [] || rest[0] == '.'
    ensures ReadOctet(Decimal(x) + rest) == Some((x, rest))
  {
    assert Power(10, 3) == 1000;
    ToRadixLength(x, 10, 3);
    ReadNumberOfToRadix(x, rest, 10, 0x100, 3, false);
  }

  lemma ReadDotOctetOfDecimal(x: u8, rest: string)
    requires rest == [] || rest[0] == '.'
    ensures ReadDotOctet("." + Decimal(x) + rest) == Some((x, rest))
  {
    var s := "." + Decimal(x) + rest;
    assert s[1..] == Decimal(x) + rest;
    ReadOctetOfDecimal(x, rest);
  }

  /** Parsing the text `Display` gives an IPv4 address yields that address. */
  lemma Ipv4RoundTrip(addr: Ipv4Addr)
    ensures ParseIpv4(Ipv4ToString(addr)) == Some(addr)
  {
    Ipv4TextParts(addr);
    ReadIpv4Parts(addr);
  }

  /** The text of an IPv4 address as its first octet followed by three ".octet" parts. */
  lemma Ipv4TextParts(addr: Ipv4Addr)
    ensures Ipv4ToString(addr)
      == Decimal(addr.a) + ("." + Decimal(addr.b) + ("." + Decimal(addr.c) + ("." + Decimal(addr.d) + [])))
  {
  }

  lemma ReadIpv4Parts(addr: Ipv4Addr)
    ensures ReadIpv4(Decimal(addr.a) + ("." + Decimal(addr.b) + ("." + Decimal(addr.c) + ("." + Decimal(addr.d) + []))))
      == Some((addr, []))
  {
    var t3 := "." + Decimal(addr.d) + [];
    var t2 := "." + Decimal(addr.c) + t3;
    var t1 := "." + Decimal(addr.b) + t2;
    ReadOctetOfDecimal(addr.a, t1);
    ReadDotOctetOfDecimal(addr.b, t2);
    ReadDotOctetOfDecimal(addr.c, t3);
    ReadDotOctetOfDecimal(addr.d, []);
  }

  /** What `read_separator` consumes before group `i`. */
  function Sep(i: nat): string {
    if i == 0 then "" else ":"
  }

  /** No IPv4 address can be read from text that does not start with a decimal digit. */
  lemma NoIpv4WithoutDigit(s: string)
    requires s == [] || !IsDigit(s[0], 10)
    ensures ReadIpv4(s) == None
  {
  }

  /** Nor from text without a '.'. */
  lemma NoIpv4WithoutDot(s: string)
    requires NoDot(s)
    ensures ReadIpv4(s) == None
  {
    match ReadOctet(s)
    case None =>
    case Some((_, rest)) =>
      assert rest == [] || rest[0] == s[|s| - |rest|];
  }

  lemma ReadHexGroupOfHex(g: u16, rest: string)
    requires rest == [] || rest[0] == ':'
    ensures ReadHexGroup(Hex(g) + rest) == Some((g, rest))
  {
    assert Power(16, 4) == 0x1_0000;
    ToRadixLength(g, 16, 4);
    ReadNumberOfToRadix(g, rest, 16, 0x1_0000, 4, true);
  }

  /** The group reader stops at the end of the text and at "::". */
  lemma GroupsEnd(rest: string, i: nat, limit: nat)
    requires i <= limit
    requires rest == [] || (|rest| >= 2 && rest[0] == ':' && rest[1] == ':')
    ensures ReadGroups(rest, i, limit) == Groups([], false, rest)
  {
    if i < limit && rest != [] {
      NoIpv4WithoutDigit(rest);
      NoIpv4WithoutDigit(rest[1..]);
    }
  }

  /** The group reader reads back groups written by `HexSegments`, up to "::" or the end. */
  lemma {:induction false} GroupsOfHex(groups: seq<u16>, rest: string, i: nat, limit: nat)
    requires groups != [] && i + |groups| <= limit
    requires rest == [] || (|rest| >= 2 && rest[0] == ':' && rest[1] == ':')
    requires NoDot(rest)
    ensures ReadGroups(Sep(i) + (HexSegments(groups) + rest), i, limit) == Groups(groups, false, rest)
    decreases |groups|, 1
  {
    if |groups| == 1 {
      LastGroupOfHex(groups, rest, i, limit);
    } else {
      MoreGroupsOfHex(groups, rest, i, limit);
    }
  }

  lemma LastGroupOfHex(groups: seq<u16>, rest: string, i: nat, limit: nat)
    requires |groups| == 1 && i + 1 <= limit
    requires rest == [] || (|rest| >= 2 && rest[0] == ':' && rest[1] == ':')
    requires NoDot(rest)
    ensures ReadGroups(Sep(i) + (HexSegments(groups) + rest), i, limit) == Groups(groups, false, rest)
  {
    var s := Sep(i) + (HexSegments(groups) + rest);
    var after := FirstGroup(groups, rest, i);
    LastGroupRead(s, i, limit, groups[0], after);
    assert [groups[0]] == groups;
  }

  /** A last group, followed by the end of the text or by "::", ends the reading. */
  lemma LastGroupRead(s: string, i: nat, limit: nat, group: u16, rest: string)
    requires i < limit
    requires ReadIpv4After(s, i) == None && ReadHexGroupAfter(s, i) == Some((group, rest))
    requires rest == [] || (|rest| >= 2 && rest[0] == ':' && rest[1] == ':')
    ensures ReadGroups(s, i, limit) == Groups([group], false, rest)
  {
    GroupsEnd(rest, i + 1, limit);
    ReadGroupsStep(s, i, limit, group, rest);
    assert [group] + [] == [group];
  }

  lemma {:induction false} MoreGroupsOfHex(groups: seq<u16>, rest: string, i: nat, limit: nat)
    requires |groups| > 1 && i + |groups| <= limit
    requires rest == [] || (|rest| >= 2 && rest[0] == ':' && rest[1] == ':')
    requires NoDot(rest)
    ensures ReadGroups(Sep(i) + (HexSegments(groups) + rest), i, limit) == Groups(groups, false, rest)
    decreases |groups|, 0
  {
    var s := Sep(i) + (HexSegments(groups) + rest);
    var after := FirstGroup(groups, rest, i);
    ReadGroupsStep(s, i, limit, groups[0], after);
    var tail := groups[1..];
    GroupsOfHex(tail, rest, i + 1, limit);
    var more := ReadGroups(after, i + 1, limit);
    assert more == Groups(tail, false, rest);
    HeadTail(groups);
    assert [groups[0]] + more.values == groups;
  }

  lemma HeadTail<T>(s: seq<T>)
    requires s != []
    ensures [s[0]] + s[1..] == s
  {
  }

  /** The first group written by `HexSegments` is read back, and what follows is left. */
  lemma FirstGroup(groups: seq<u16>, rest: string, i: nat) returns (after: string)
    requires groups != []
    requires NoDot(rest) && (rest == [] || rest[0] == ':')
    ensures after == if |groups| == 1 then rest else Sep(i + 1) + (HexSegments(groups[1..]) + rest)
    ensures ReadIpv4After(Sep(i) + (HexSegments(groups) + rest), i) == None
    ensures ReadHexGroupAfter(Sep(i) + (HexSegments(groups) + rest), i) == Some((groups[0], after))
  {
    var t := HexSegments(groups) + rest;
    after := HexSegmentsCons(groups, rest);
    SepRead(t, i);
    NoIpv4WithoutDot(t);
    ReadHexGroupOfHex(groups[0], after);
  }

  lemma SepRead(t: string, i: nat)
    ensures ReadSeparator(Sep(i) + t, ':', i) == Some(t)
  {
    if i > 0 {
      assert (":" + t)[1..] == t;
    }
  }

  /** One step of `read_groups` when no IPv4 address but a group can be read. */
  lemma ReadGroupsStep(s: string, i: nat, limit: nat, group: u16, after: string)
    requires i < limit
    requires ReadIpv4After(s, i) == None
    requires ReadHexGroupAfter(s, i) == Some((group, after))
    ensures var more := ReadGroups(after, i + 1, limit);
      ReadGroups(s, i, limit) == Groups([group] + more.values, more.ipv4, more.rest)
  {
  }

  lemma HexSegmentsCons(groups: seq<u16>, rest: string) returns (after: string)
    requires groups != [] && NoDot(rest)
    requires rest == [] || rest[0] == ':'
    ensures after == if |groups| == 1 then rest else ":" + (HexSegments(groups[1..]) + rest)
    ensures HexSegments(groups) + rest == Hex(groups[0]) + after
    ensures NoDot(HexSegments(groups) + rest)
    ensures after == [] || after[0] == ':'
  {
    if |groups| == 1 {
      after := rest;
    } else {
      var tail := HexSegments(groups[1..]);
      after := ":" + (tail + rest);
      assert HexSegments(groups) == Hex(groups[0]) + ":" + tail;
      assert (Hex(groups[0]) + ":" + tail) + rest == Hex(groups[0]) + (":" + (tail + rest));
    }
    NoDotAppend(HexSegments(groups), rest);
  }

  /** Parsing the text `Display` gives an IPv6 address yields that address, and the text is no IPv4 address. */
  lemma Ipv6RoundTrip(addr: Ipv6Addr)
    ensures ParseIpv4(Ipv6ToString(addr)) == None
    ensures ParseIpv6(Ipv6ToString(addr)) == Some(addr)
  {
    if ToIpv4Mapped(addr).Some? {
      MappedRoundTrip(addr);
    } else if LongestZeroRun(addr.segments, 0, Span(0, 0), Span(0, 0)).len > 1 {
      CompressedRoundTrip(addr);
    } else {
      PlainRoundTrip(addr);
    }
  }

  lemma PlainRoundTrip(addr: Ipv6Addr)
    requires ToIpv4Mapped(addr).None?
    requires LongestZeroRun(addr.segments, 0, Span(0, 0), Span(0, 0)).len <= 1
    ensures ReadIpv4(Ipv6ToString(addr)) == None
    ensures ReadIpv6(Ipv6ToString(addr)) == Some((addr, []))
  {
    var text := HexSegments(addr.segments);
    assert Ipv6ToString(addr) == text;
    NoIpv4WithoutDot(text);
    GroupsOfHex(addr.segments, [], 0, 8);
    assert Sep(0) + (text + []) == text;
    assert ReadGroups(text, 0, 8) == Groups(addr.segments, false, []);
  }

  lemma CompressedRoundTrip(addr: Ipv6Addr)
    requires ToIpv4Mapped(addr).None?
    requires LongestZeroRun(addr.segments, 0, Span(0, 0), Span(0, 0)).len > 1
    ensures ReadIpv4(Ipv6ToString(addr)) == None
    ensures ReadIpv6(Ipv6ToString(addr)) == Some((addr, []))
  {
    var segs := addr.segments;
    var z := LongestZeroRun(segs, 0, Span(0, 0), Span(0, 0));
    var left, right := segs[..z.start], segs[z.start + z.len..];
    CompressedText(addr, z);
    ZeroRunSplit(segs, z);
    GappedRoundTrip(left, right);
  }

  /** The compressed text is the part before the longest zero run, "::", and the part after. */
  lemma CompressedText(addr: Ipv6Addr, z: Span)
    requires ToIpv4Mapped(addr).None?
    requires z == LongestZeroRun(addr.segments, 0, Span(0, 0), Span(0, 0)) && z.len > 1
    ensures Ipv6ToString(addr) == HexSegments(addr.segments[..z.start]) + ("::" + HexSegments(addr.segments[z.start + z.len..]))
  {
  }

  /** Text with "::" between the groups of `left` and of `right` reads back as the expanded address. */
  lemma GappedRoundTrip(left: seq<u16>, right: seq<u16>)
    requires |left| + |right| < 8 - 1
    ensures var text := HexSegments(left) + ("::" + HexSegments(right));
      ReadIpv4(text) == None && ReadIpv6(text) == Some((Ipv6Addr(Expand(left, right)), []))
  {
    var gap := "::" + HexSegments(right);
    var text := HexSegments(left) + gap;
    NoDotAppend("::", HexSegments(right));
    NoDotAppend(HexSegments(left), gap);
    NoIpv4WithoutDot(text);
    HeadBeforeGap(left, right);
    GapThenTail(left, right);
  }

  /** After the head groups, "::" and the tail groups complete the address. */
  lemma GapThenTail(left: seq<u16>, right: seq<u16>)
    requires |left| + |right| < 8 - 1
    ensures ReadAfterGap(left, "::" + HexSegments(right)) == Some((Ipv6Addr(Expand(left, right)), []))
  {
    var t := HexSegments(right);
    var n: nat := 8 - (|left| + 1);
    TailAfterGap(right, n);
    assert ReadGroups(t, 0, n) == Groups(right, false, []);
    ReadAfterGapOf(left, t, n);
  }

  /** The groups before "::" are read back, up to the "::". */
  lemma HeadBeforeGap(left: seq<u16>, right: seq<u16>)
    requires |left| < 8
    ensures ReadGroups(HexSegments(left) + ("::" + HexSegments(right)), 0, 8) == Groups(left, false, "::" + HexSegments(right))
  {
    var gap := "::" + HexSegments(right);
    NoDotAppend("::", HexSegments(right));
    if left == [] {
      GroupsEnd(gap, 0, 8);
      assert HexSegments(left) + gap == gap;
    } else {
      GroupsOfHex(left, gap, 0, 8);
      assert Sep(0) + (HexSegments(left) + gap) == HexSegments(left) + gap;
    }
  }

  /** The groups after "::" are read back to the end. */
  lemma TailAfterGap(right: seq<u16>, limit: nat)
    requires |right| <= limit
    ensures ReadGroups(HexSegments(right), 0, limit) == Groups(right, false, [])
  {
    if right == [] {
      GroupsEnd([], 0, limit);
    } else {
      var h := HexSegments(right);
      GroupsOfHex(right, [], 0, limit);
      assert Sep(0) + (h + []) == h;
    }
  }

  lemma NoDotAppend(a: string, b: string)
    ensures NoDot(a + b) <==> NoDot(a) && NoDot(b)
  {
    if NoDot(a) && NoDot(b) {
      forall k | 0 <= k < |a + b| ensures (a + b)[k] != '.' {
        if k < |a| {
          assert (a + b)[k] == a[k];
        } else {
          assert (a + b)[k] == b[k - |a|];
        }
      }
    }
    if NoDot(a + b) {
      forall k | 0 <= k < |a| ensures a[k] != '.' {
        assert (a + b)[k] == a[k];
      }
      forall k | 0 <= k < |b| ensures b[k] != '.' {
        assert (a + b)[k + |a|] == b[k];
      }
    }
  }

  /** `read_ipv6_addr` after fewer than eight groups and a following "::". */
  lemma ReadAfterGapOf(head: seq<u16>, t: string, n: nat)
    requires |head| < 8 && n == 8 - (|head| + 1)
    ensures var tail := ReadGroups(t, 0, n);
      ReadAfterGap(head, "::" + t) == Some((Ipv6Addr(Expand(head, tail.values)), tail.rest))
  {
    GapChars(t);
  }

  lemma GapChars(t: string)
    ensures ReadChar("::" + t, ':') == Some(":" + t)
    ensures ReadChar(":" + t, ':') == Some(t)
  {
    assert ("::" + t)[1..] == ":" + t;
    assert (":" + t)[1..] == t;
  }

  /** A sequence is the part before a zero run, the zeros, and the part after. */
  lemma ZeroRunSplit(segs: Segments, z: Span)
    requires z.start + z.len <= |segs| && 1 < z.len && IsZeroRun(segs, z)
    ensures Expand(segs[..z.start], segs[z.start + z.len..]) == segs
  {
    var whole := Expand(segs[..z.start], segs[z.start + z.len..]);
    forall k | 0 <= k < |segs| ensures whole[k] == segs[k] {
      if k < z.start {
      } else if k < z.start + z.len {
        assert segs[k] == 0;
      } else {
      }
    }
  }

  lemma MappedRoundTrip(addr: Ipv6Addr)
    requires ToIpv4Mapped(addr).Some?
    ensures ReadIpv4(Ipv6ToString(addr)) == None
    ensures ReadIpv6(Ipv6ToString(addr)) == Some((addr, []))
  {
    var v4 := ToIpv4Mapped(addr).value;
    var t := "ffff:" + Ipv4ToString(v4);
    assert Ipv6ToString(addr) == "::" + t;
    MappedSegments(addr);
    MappedRead(v4);
  }

  /** The text "::ffff:" and an IPv4 address reads back as the IPv4-mapped address. */
  lemma MappedRead(v4: Ipv4Addr)
    ensures var text := "::" + ("ffff:" + Ipv4ToString(v4));
      && ReadIpv4(text) == None
      && ReadIpv6(text) == Some((Ipv6Addr(Expand([], [0xffff, Segment(v4.a, v4.b), Segment(v4.c, v4.d)])), []))
  {
    var t := "ffff:" + Ipv4ToString(v4);
    NoIpv4WithoutDigit("::" + t);
    GroupsEnd("::" + t, 0, 8);
    ReadAfterGapOf([], t, 7);
    MappedTail(v4);
  }

  /** An IPv4-mapped address is five zeros, 0xffff, and the two segments of its IPv4 bytes. */
  lemma MappedSegments(addr: Ipv6Addr)
    requires ToIpv4Mapped(addr).Some?
    ensures var v4 := ToIpv4Mapped(addr).value;
      Expand([], [0xffff, Segment(v4.a, v4.b), Segment(v4.c, v4.d)]) == addr.segments
  {
    var segs := addr.segments;
    var v4 := ToIpv4Mapped(addr).value;
    SegmentOfBytes(segs[6]);
    SegmentOfBytes(segs[7]);
    var whole := Expand([], [0xffff, Segment(v4.a, v4.b), Segment(v4.c, v4.d)]);
    assert segs[..6] == [0, 0, 0, 0, 0, 0xffff];
    forall k | 0 <= k < 8 ensures whole[k] == segs[k] {
      if k < 6 {
        assert segs[k] == segs[..6][k];
      }
    }
  }

  lemma SegmentOfBytes(g: u16)
    ensures Segment(g / 0x100, g % 0x100) == g
  {
  }

  /** After the gap of an IPv4-mapped address: the group "ffff", then the embedded IPv4 address. */
  lemma MappedTail(v4: Ipv4Addr)
    ensures ReadGroups("ffff:" + Ipv4ToString(v4), 0, 7) == Groups([0xffff, Segment(v4.a, v4.b), Segment(v4.c, v4.d)], true, [])
  {
    var after := ":" + Ipv4ToString(v4);
    var s := "ffff:" + Ipv4ToString(v4);
    assert Hex(0xffff) == "ffff" by {
      assert ToRadix(0xf, 16) == "f";
      assert ToRadix(0xff, 16) == "ff";
      assert ToRadix(0xfff, 16) == "fff";
    }
    assert s == Hex(0xffff) + after;
    NoIpv4WithoutDigit(s);
    ReadHexGroupOfHex(0xffff, after);
    ReadGroupsStep(s, 0, 7, 0xffff, after);
    EmbeddedIpv4(v4);
  }

  /** An embedded IPv4 address after a ':' fills the last two groups and ends the reading. */
  lemma EmbeddedIpv4(v4: Ipv4Addr)
    ensures ReadGroups(":" + Ipv4ToString(v4), 1, 7) == Groups([Segment(v4.a, v4.b), Segment(v4.c, v4.d)], true, [])
  {
    var text := Ipv4ToString(v4);
    Ipv4RoundTrip(v4);
    assert ReadIpv4(text) == Some((v4, []));
    assert (":" + text)[1..] == text;
    assert ReadIpv4After(":" + text, 1) == Some((v4, []));
  }
}
