/**
 * The IP address types of Rust's `std::net` that the source relies on: `Ipv4Addr`,
 * `Ipv6Addr`, `IpAddr`, their text parser (`str::parse`, after `core::net::parser`)
 * and their `Display` forms. The parser works on a remaining-input string: each
 * reader returns the value it read and the input left after it, or `None`, in which
 * case the caller goes on from where it was (the parser's `read_atomically`).
 */
module Net {
  import opened Wrappers
  import opened Text

  type u8 = x: nat | x < 0x100
  type u16 = x: nat | x < 0x1_0000

  datatype Ipv4Addr = Ipv4Addr(a: u8, b: u8, c: u8, d: u8)

  type Segments = s: seq<u16> | |s| == 8 witness [0, 0, 0, 0, 0, 0, 0, 0]

  /** An IPv6 address as its eight 16-bit segments, most significant first. */
  datatype Ipv6Addr = Ipv6Addr(segments: Segments)

  datatype IpAddr = V4(v4: Ipv4Addr) | V6(v6: Ipv6Addr)

  /** `rest` is what is left of `s` after reading a prefix of it. */
  predicate IsSuffix(rest: string, s: string) {
    |rest| <= |s| && rest == s[|s| - |rest|..]
  }

  /** `read_given_char`: consume `c` if the input starts with it. */
  function ReadChar(s: string, c: char): (r: Option<string>)
    ensures r.Some? <==> s != [] && s[0] == c
    ensures r.Some? ==> r.value == s[1..]
  {
    if s != [] && s[0] == c then Some(s[1..]) else None
  }

  /** `read_separator`: every item but the first (`index` 0) is preceded by `sep`. */
  function ReadSeparator(s: string, sep: char, index: nat): (r: Option<string>)
    ensures r.Some? ==> IsSuffix(r.value, s)
  {
    if index == 0 then Some(s) else ReadChar(s, sep)
  }

  /**
   * The digit loop of `read_number`: take digits while there are any, failing as
   * soon as the number no longer fits below `bound` (`checked_mul`/`checked_add` on
   * the target integer type) or more than `maxDigits` digits have been read.
   * Returns the number, the digit count and the remaining input.
   */
  function ReadDigits(s: string, radix: nat, bound: nat, maxDigits: nat, acc: nat, count: nat): (r: Option<(nat, nat, string)>)
    requires radix == 10 || radix == 16
    requires acc < bound
    ensures r.Some? ==> r.value.0 < bound && count <= r.value.1
    ensures r.Some? && count <= maxDigits ==> r.value.1 <= maxDigits
    ensures r.Some? ==> IsSuffix(r.value.2, s) && r.value.1 == count + |s| - |r.value.2|
    ensures r.Some? ==> r.value.2 == [] || !IsDigit(r.value.2[0], radix)
    decreases |s|
  {
    if s != [] && ToDigit(s[0], radix).Some? then
      var shifted := acc * radix;
      if shifted >= bound then None
      else
        var next := shifted + ToDigit(s[0], radix).value;
        if next >= bound then None
        else if count + 1 > maxDigits then None
        else
          ReadDigits(s[1..], radix, bound, maxDigits, next, count + 1)
    else Some((acc, count, s))
  }

  /**
   * `read_number`: at least one digit; with `allowZeroPrefix` false, a number of
   * more than one digit must not start with '0' (no octal-looking octets).
   */
  function ReadNumber(s: string, radix: nat, bound: nat, maxDigits: nat, allowZeroPrefix: bool): (r: Option<(nat, string)>)
    requires radix == 10 || radix == 16
    requires 0 < bound
    ensures r.Some? ==> r.value.0 < bound && IsSuffix(r.value.1, s) && |r.value.1| < |s|
    ensures r.Some? ==> |s| - |r.value.1| <= maxDigits && IsDigit(s[0], radix)
  {
    var hasLeadingZero := s != [] && s[0] == '0';
    match ReadDigits(s, radix, bound, maxDigits, 0, 0)
    case None => None
    case Some((value, count, rest)) =>
      if count == 0 then None
      else if !allowZeroPrefix && hasLeadingZero && count > 1 then None
      else Some((value, rest))
  }

  /** One decimal octet: at most three digits, below 256, no leading zero. */
  function ReadOctet(s: string): (r: Option<(u8, string)>)
    ensures r.Some? ==> IsSuffix(r.value.1, s) && |r.value.1| < |s|
  {
    match ReadNumber(s, 10, 0x100, 3, false)
    case None => None
    case Some((value, rest)) => Some((value as u8, rest))
  }

  /** One IPv6 group: one to four hexadecimal digits, leading zeros allowed. */
  function ReadHexGroup(s: string): (r: Option<(u16, string)>)
    ensures r.Some? ==> IsSuffix(r.value.1, s) && |r.value.1| < |s|
  {
    match ReadNumber(s, 16, 0x1_0000, 4, true)
    case None => None
    case Some((value, rest)) => Some((value as u16, rest))
  }

  /** An octet after a '.' separator. */
  function ReadDotOctet(s: string): (r: Option<(u8, string)>)
    ensures r.Some? ==> IsSuffix(r.value.1, s) && |r.value.1| < |s|
  {
    var s' :- ReadChar(s, '.');
    ReadOctet(s')
  }

  lemma SuffixTransitive(a: string, b: string, c: string)
    requires IsSuffix(a, b) && IsSuffix(b, c)
    ensures IsSuffix(a, c)
  {
  }

  /** `read_ipv4_addr`: four octets separated by '.'. */
  function ReadIpv4(s: string): (r: Option<(Ipv4Addr, string)>)
    ensures r.Some? ==> IsSuffix(r.value.1, s) && |r.value.1| < |s|
  {
    var o0 :- ReadOctet(s);
    var o1 :- ReadDotOctet(o0.1);
    var o2 :- ReadDotOctet(o1.1);
    var o3 :- ReadDotOctet(o2.1);
    SuffixTransitive(o1.1, o0.1, s);
    SuffixTransitive(o2.1, o1.1, s);
    SuffixTransitive(o3.1, o2.1, s);
    Some((Ipv4Addr(o0.0, o1.0, o2.0, o3.0), o3.1))
  }

  /** The groups read by `read_groups`, whether the last two came from an embedded IPv4 address, and the input left. */
  datatype Groups = Groups(values: seq<u16>, ipv4: bool, rest: string)

  /**
   * `read_groups`, from group `i` on, for a slot array of length `limit`: before
   * each group, while at least two slots are left, an embedded IPv4 address is
   * tried first and, if found, fills two slots and ends the reading.
   */
  function ReadGroups(s: string, i: nat, limit: nat): (g: Groups)
    requires i <= limit
    ensures |g.values| <= limit - i
    ensures g.ipv4 ==> 2 <= |g.values|
    ensures IsSuffix(g.rest, s)
    decreases limit - i
  {
    if i == limit then Groups([], false, s)
    else
      var v4 := if i + 1 < limit then ReadIpv4After(s, i) else None;
      if v4.Some? then
        var addr := v4.value.0;
        Groups([Segment(addr.a, addr.b), Segment(addr.c, addr.d)], true, v4.value.1)
      else
        match ReadHexGroupAfter(s, i)
        case None => Groups([], false, s)
        case Some((group, rest)) =>
          var more := ReadGroups(rest, i + 1, limit);
          SuffixTransitive(more.rest, rest, s);
          Groups([group] + more.values, more.ipv4, more.rest)
  }

  /** The 16-bit segment with bytes `hi`, `lo` (`u16::from_be_bytes`). */
  function Segment(hi: u8, lo: u8): (g: u16)
    ensures g / 0x100 == hi && g % 0x100 == lo
  {
    hi * 0x100 + lo
  }

  function ReadIpv4After(s: string, index: nat): (r: Option<(Ipv4Addr, string)>)
    ensures r.Some? ==> IsSuffix(r.value.1, s)
  {
    var s' :- ReadSeparator(s, ':', index);
    ReadIpv4(s')
  }

  function ReadHexGroupAfter(s: string, index: nat): (r: Option<(u16, string)>)
    ensures r.Some? ==> IsSuffix(r.value.1, s)
  {
    var s' :- ReadSeparator(s, ':', index);
    ReadHexGroup(s')
  }

  function Zeros(n: nat): (z: seq<u16>)
    ensures |z| == n && forall i :: 0 <= i < n ==> z[i] == 0
  {
    seq(n, _ => 0)
  }

  /**
   * `read_ipv6_addr`: eight groups, or fewer groups, then "::" standing for at
   * least one zero group, then the remaining groups; an embedded IPv4 address
   * may only come last.
   */
  function ReadIpv6(s: string): (r: Option<(Ipv6Addr, string)>)
    ensures r.Some? ==> IsSuffix(r.value.1, s)
  {
    var head := ReadGroups(s, 0, 8);
    if |head.values| == 8 then Some((Ipv6Addr(head.values), head.rest))
    else if head.ipv4 then None
    else
      match ReadAfterGap(head.values, head.rest)
      case None => None
      case Some((addr, rest)) =>
        SuffixTransitive(rest, head.rest, s);
        Some((addr, rest))
  }

  /** After fewer than eight groups: "::", then the groups after it; the gap between them is zeros. */
  function ReadAfterGap(head: seq<u16>, s: string): (r: Option<(Ipv6Addr, string)>)
    requires |head| < 8
    ensures r.Some? ==> IsSuffix(r.value.1, s)
  {
    var s1 :- ReadChar(s, ':');
    var s2 :- ReadChar(s1, ':');
    var tail := ReadGroups(s2, 0, 8 - (|head| + 1));
    SuffixTransitive(tail.rest, s2, s);
    Some((Ipv6Addr(Expand(head, tail.values)), tail.rest))
  }

  /** The groups before and after "::" with the zero groups the gap stands for. */
  function Expand(head: seq<u16>, tail: seq<u16>): (segments: Segments)
    requires |head| + |tail| < 8
  {
    head + Zeros(8 - |head| - |tail|) + tail
  }

  /** `read_ip_addr`: IPv4 first; IPv6 is tried only when no IPv4 address can be read at all. */
  function ReadIpAddr(s: string): (r: Option<(IpAddr, string)>)
  {
    match ReadIpv4(s)
    case Some((v4, rest)) => Some((V4(v4), rest))
    case None =>
      match ReadIpv6(s)
      case Some((v6, rest)) => Some((V6(v6), rest))
      case None => None
  }

  /** `parse_with`: the reader must consume the whole input. */
  function Whole<T>(r: Option<(T, string)>): (v: Option<T>)
  {
    match r
    case Some((value, rest)) => if rest == [] then Some(value) else None
    case None => None
  }

  /** `str::parse::<IpAddr>`. */
  function ParseIpAddr(s: string): Option<IpAddr> {
    Whole(ReadIpAddr(s))
  }

  /** `str::parse::<Ipv4Addr>`. */
  function ParseIpv4(s: string): Option<Ipv4Addr> {
    Whole(ReadIpv4(s))
  }

  /** `str::parse::<Ipv6Addr>`. */
  function ParseIpv6(s: string): Option<Ipv6Addr> {
    Whole(ReadIpv6(s))
  }

  /**
   * Text that starts with an IPv4 address is never an IPv6 address: the IPv6 reader
   * would take that IPv4 address as its leading part, which must not precede "::".
   */
  lemma Ipv4PrefixBlocksIpv6(s: string)
    requires ReadIpv4(s).Some?
    ensures ReadIpv6(s) == None
  {
    var head := ReadGroups(s, 0, 8);
    assert ReadIpv4After(s, 0) == ReadIpv4(s);
    assert head.ipv4 && |head.values| == 2;
  }

  /**
   * `str::parse::<IpAddr>` is an IPv4 address exactly when the whole text is one, an
   * IPv6 address exactly when the whole text is one and not an IPv4 address, and
   * fails exactly when the text is neither.
   */
  lemma ParseIpAddrPrecedence(s: string)
    ensures ParseIpv4(s).Some? ==> ParseIpAddr(s) == Some(V4(ParseIpv4(s).value))
    ensures ParseIpv4(s).None? && ParseIpv6(s).Some? ==> ParseIpAddr(s) == Some(V6(ParseIpv6(s).value))
    ensures ParseIpv4(s).None? && ParseIpv6(s).None? ==> ParseIpAddr(s) == None
    ensures ParseIpAddr(s).Some? ==> ParseIpv4(s).Some? || ParseIpv6(s).Some?
  {
    if ReadIpv4(s).Some? {
      Ipv4PrefixBlocksIpv6(s);
    }
  }

  // ---- Display ----

  predicate NoDot(s: string) {
    forall k :: 0 <= k < |s| ==> s[k] != '.'
  }

  /** `Ipv4Addr` as "a.b.c.d" in decimal. */
  function Ipv4ToString(addr: Ipv4Addr): string {
    Decimal(addr.a) + "." + Decimal(addr.b) + "." + Decimal(addr.c) + "." + Decimal(addr.d)
  }

  /** `to_ipv4_mapped`: ::ffff:a.b.c.d. */
  function ToIpv4Mapped(addr: Ipv6Addr): Option<Ipv4Addr> {
    var s := addr.segments;
    if s[..6] == [0, 0, 0, 0, 0, 0xffff] then
      Some(Ipv4Addr(s[6] / 0x100, s[6] % 0x100, s[7] / 0x100, s[7] % 0x100))
    else None
  }

  /** A run of segments: where it starts and how many. */
  datatype Span = Span(start: nat, len: nat)

  /** Every segment the span covers is zero. */
  predicate IsZeroRun(segments: seq<u16>, span: Span) {
    forall k :: span.start <= k < span.start + span.len && k < |segments| ==> segments[k] == 0
  }

  /**
   * `z` is a longest zero run among those ending by `i`, and the first of that
   * length: no zero run before `i` is longer, and none as long starts earlier.
   */
  ghost predicate LongestFirst(segments: seq<u16>, i: nat, z: Span) {
    forall r: Span :: 0 < r.len && r.start + r.len <= i && IsZeroRun(segments, r) ==>
      r.len < z.len || (r.len == z.len && z.start <= r.start)
  }

  /**
   * `current` is the zero run that ends at `i` and reaches as far left as the
   * zeros go; it is empty when the segment before `i` is not zero.
   */
  predicate EndsRun(segments: seq<u16>, i: nat, current: Span)
    requires i <= |segments|
  {
    && IsZeroRun(segments, current)
    && if current.len == 0 then i == 0 || segments[i - 1] != 0
       else current.start + current.len == i && (current.start == 0 || segments[current.start - 1] != 0)
  }

  /**
   * The scan `Display for Ipv6Addr` makes for the longest run of zero segments:
   * from segment `i` on, with the longest run so far and the current run; a later
   * run replaces the longest only when strictly longer, so the first of equal
   * runs wins (section 4.2.3 of RFC 5952).
   */
  function LongestZeroRun(segments: seq<u16>, i: nat, longest: Span, current: Span): (z: Span)
    requires i <= |segments|
    requires longest.start + longest.len <= i && IsZeroRun(segments, longest)
    requires LongestFirst(segments, i, longest) && EndsRun(segments, i, current)
    ensures z.start + z.len <= |segments| && IsZeroRun(segments, z)
    ensures LongestFirst(segments, |segments|, z)
    decreases |segments| - i
  {
    if i == |segments| then longest
    else if segments[i] == 0 then
      var current' := Span(if current.len == 0 then i else current.start, current.len + 1);
      var longest' := if current'.len > longest.len then current' else longest;
      ZeroExtendsRun(segments, i, longest, current);
      LongestZeroRun(segments, i + 1, longest', current')
    else
      NonZeroEndsRun(segments, i, longest, current);
      LongestZeroRun(segments, i + 1, longest, Span(0, 0))
  }

  /** A zero at `i` extends the current run, and the longest is updated as the scan does. */
  lemma ZeroExtendsRun(segments: seq<u16>, i: nat, longest: Span, current: Span)
    requires i < |segments| && segments[i] == 0
    requires longest.start + longest.len <= i
    requires LongestFirst(segments, i, longest) && EndsRun(segments, i, current)
    ensures var current' := Span(if current.len == 0 then i else current.start, current.len + 1);
      var longest' := if current'.len > longest.len then current' else longest;
      EndsRun(segments, i + 1, current') && LongestFirst(segments, i + 1, longest')
  {
    var current' := Span(if current.len == 0 then i else current.start, current.len + 1);
    var longest' := if current'.len > longest.len then current' else longest;
    assert current'.start + current'.len == i + 1;
    forall r: Span | 0 < r.len && r.start + r.len <= i + 1 && IsZeroRun(segments, r)
      ensures r.len < longest'.len || (r.len == longest'.len && longest'.start <= r.start)
    {
      if r.start + r.len == i + 1 && 0 < current'.start {
        assert segments[current'.start - 1] != 0;
      }
    }
  }

  /** A non-zero segment at `i` ends every run: no zero run ends after it. */
  lemma NonZeroEndsRun(segments: seq<u16>, i: nat, longest: Span, current: Span)
    requires i < |segments| && segments[i] != 0
    requires LongestFirst(segments, i, longest)
    ensures EndsRun(segments, i + 1, Span(0, 0)) && LongestFirst(segments, i + 1, longest)
  {
    forall r: Span | 0 < r.len && r.start + r.len <= i + 1 && IsZeroRun(segments, r)
      ensures r.start + r.len <= i
    {
      assert segments[i] != 0;
    }
  }

  /** `fmt_subslice`: segments in lower-case hex, separated by ':'. */
  function HexSegments(segments: seq<u16>): (r: string)
    ensures NoDot(r)
  {
    if segments == [] then []
    else if |segments| == 1 then Hex(segments[0])
    else Hex(segments[0]) + ":" + HexSegments(segments[1..])
  }

  /**
   * `Display for Ipv6Addr`: IPv4-mapped addresses as "::ffff:a.b.c.d"; otherwise the
   * longest run of two or more zero segments becomes "::" (section 4.2 of RFC 5952).
   */
  function Ipv6ToString(addr: Ipv6Addr): string {
    match ToIpv4Mapped(addr)
    case Some(v4) => "::ffff:" + Ipv4ToString(v4)
    case None =>
      var zeroes := LongestZeroRun(addr.segments, 0, Span(0, 0), Span(0, 0));
      if zeroes.len > 1 then
        HexSegments(addr.segments[..zeroes.start]) + "::" + HexSegments(addr.segments[zeroes.start + zeroes.len..])
      else HexSegments(addr.segments)
  }
}
