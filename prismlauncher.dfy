/**
 * The `prismlauncher` crate: the connection descriptor types, their text forms,
 * the command line `launch` hands to the launcher, and the post-processing of the
 * launcher's standard output in `version` and `list_accounts`. Running the
 * launcher itself (`execute`) is outside the model: `Launch` stops at the
 * argument vector, `Version` and `ListAccounts` start from the captured output.
 */
module PrismLauncher {
  import opened Wrappers
  import opened Text
  import opened Net
  import opened IpText

  datatype Hostname = Dns(name: string) | Ipv4(v4: Ipv4Addr) | Ipv6(v6: Ipv6Addr)

  datatype Address = Address(hostname: Hostname, port: u16)

  datatype GameMode = SinglePlayer(worldName: string) | MultiPlayer(address: Address)

  /** What `launch` is given: the instance folder name, where to join, and the account. */
  datatype LaunchParameters = LaunchParameters(instanceId: string, gamemode: Option<GameMode>, profile: Option<string>)

  const DEFAULT_PORT: u16 := 25565

  /** `Address::default()`: "localhost" on Minecraft's port. */
  function DefaultAddress(): (address: Address)
    ensures address.hostname == Dns("localhost") && address.port == 25565
  {
    Address(Dns("localhost"), DEFAULT_PORT)
  }

  /** The default address is written "localhost:25565". */
  lemma DefaultAddressText()
    ensures AddressToString(DefaultAddress()) == "localhost:25565"
  {
    DefaultPortText();
  }

  /** `Display for Hostname`: a DNS name as it was given, an IP address in its standard text form. */
  function HostnameToString(hostname: Hostname): string {
    match hostname
    case Dns(name) => name
    case Ipv4(v4) => Ipv4ToString(v4)
    case Ipv6(v6) => Ipv6ToString(v6)
  }

  /**
   * The text of a host tells its kind and value: a DNS name is written as given,
   * an IPv4 host parses back as that address, and an IPv6 host parses back as
   * that address and never as IPv4.
   */
  lemma HostnameTextParses(hostname: Hostname)
    ensures hostname.Dns? ==> HostnameToString(hostname) == hostname.name
    ensures hostname.Ipv4? ==> ParseIpv4(HostnameToString(hostname)) == Some(hostname.v4)
    ensures hostname.Ipv6? ==>
      ParseIpv4(HostnameToString(hostname)) == None && ParseIpv6(HostnameToString(hostname)) == Some(hostname.v6)
  {
    match hostname
    case Dns(_) =>
    case Ipv4(v4) => Ipv4RoundTrip(v4);
    case Ipv6(v6) => Ipv6RoundTrip(v6);
  }

  /**
   * `Display for Address`: "host:port", the port in decimal. The text determines
   * its port and its host text: splitting it at the last ':' gives both back,
   * whatever the host is.
   */
  function AddressToString(address: Address): (s: string)
    ensures SplitHostPort(s) == Some((HostnameToString(address.hostname), address.port as nat))
  {
    HostPortRoundTrip(HostnameToString(address.hostname), address.port);
    HostnameToString(address.hostname) + ":" + Decimal(address.port)
  }

  lemma DefaultPortText()
    ensures Decimal(DEFAULT_PORT) == "25565"
  {
    assert Decimal(25565) == "25565" by {
      assert ToRadix(2, 10) == "2";
      assert ToRadix(25, 10) == "25";
      assert ToRadix(255, 10) == "255";
      assert ToRadix(2556, 10) == "2556";
    }
  }

  // ---- Reading "host:port" back ----

  /** The position of the last ':' in `s`. */
  function LastColon(s: string): (r: Option<nat>)
    ensures r.Some? ==> r.value < |s| && s[r.value] == ':' && forall j :: r.value < j < |s| ==> s[j] != ':'
    ensures r.None? ==> forall j :: 0 <= j < |s| ==> s[j] != ':'
  {
    if s == [] then None
    else if s[|s| - 1] == ':' then Some(|s| - 1)
    else LastColon(s[..|s| - 1])
  }

  /** How a reader of "host:port" takes it apart: the port is the decimal number after the last ':'. */
  function SplitHostPort(s: string): Option<(string, nat)> {
    match LastColon(s)
    case None => None
    case Some(k) =>
      var digits := s[k + 1..];
      if digits != [] && AllDigits(digits, 10) then Some((s[..k], ValueOf(digits, 10))) else None
  }

  /** Any host text followed by ':' and a port in decimal splits back into the two. */
  lemma {:induction false} HostPortRoundTrip(host: string, port: u16)
    ensures SplitHostPort(host + ":" + Decimal(port)) == Some((host, port as nat))
  {
    var digits := Decimal(port);
    var s := host + ":" + digits;
    LastColonOf(host, digits);
    assert s[|host| + 1..] == digits && s[..|host|] == host;
    ValueOfToRadix(port, 10);
  }

  /** The last ':' of a text that ends in ':' and colon-free digits is that one. */
  lemma {:induction false} LastColonOf(host: string, digits: string)
    requires forall i :: 0 <= i < |digits| ==> digits[i] != ':'
    ensures LastColon(host + ":" + digits) == Some(|host|)
    decreases |digits|
  {
    var s := host + ":" + digits;
    if digits != [] {
      var shorter := digits[..|digits| - 1];
      LastColonOf(host, shorter);
      assert s[..|s| - 1] == host + ":" + shorter;
      assert s[|s| - 1] == digits[|digits| - 1];
    }
  }

  // ---- launch ----

  /** The arguments a game mode adds: "--world" and the world name, or "--server" and "host:port". */
  function GameModeArgs(gamemode: Option<GameMode>): seq<string> {
    match gamemode
    case None => []
    case Some(SinglePlayer(worldName)) => ["--world", worldName]
    case Some(MultiPlayer(address)) => ["--server", AddressToString(address)]
  }

  function ProfileArgs(profile: Option<string>): seq<string> {
    match profile
    case None => []
    case Some(name) => ["--profile", name]
  }

  /**
   * The launcher's command line for `parameters`: "--launch" and the instance
   * first, then the game mode's pair if there is one, then the profile's pair
   * if there is one; nothing else.
   */
  function LaunchArgs(parameters: LaunchParameters): (args: seq<string>)
    ensures |args| == 2 + (if parameters.gamemode.Some? then 2 else 0) + (if parameters.profile.Some? then 2 else 0)
    ensures args[..2] == ["--launch", parameters.instanceId]
    ensures parameters.gamemode.Some? && parameters.gamemode.value.SinglePlayer? ==>
      args[2..4] == ["--world", parameters.gamemode.value.worldName]
    ensures parameters.gamemode.Some? && parameters.gamemode.value.MultiPlayer? ==>
      args[2..4] == ["--server", AddressToString(parameters.gamemode.value.address)]
    ensures parameters.profile.Some? ==> args[|args| - 2..] == ["--profile", parameters.profile.value]
    ensures parameters.gamemode.None? && parameters.profile.None? ==> args == ["--launch", parameters.instanceId]
  {
    ["--launch", parameters.instanceId] + GameModeArgs(parameters.gamemode) + ProfileArgs(parameters.profile)
  }

  /** `launch` up to the point where it hands `args` to the launcher: the vector is built push by push. */
  method Launch(parameters: LaunchParameters) returns (args: seq<string>)
    ensures args == LaunchArgs(parameters)
  {
    args := [];
    args := args + ["--launch"];
    args := args + [parameters.instanceId];
    assert args == ["--launch", parameters.instanceId];

    if parameters.gamemode.Some? {
      match parameters.gamemode.value {
        case SinglePlayer(worldName) =>
          args := args + ["--world"];
          args := args + [worldName];
        case MultiPlayer(address) =>
          args := args + ["--server"];
          var cmd := HostnameToString(address.hostname) + ":" + Decimal(address.port);
          args := args + [cmd];
      }
    }
    assert args == ["--launch", parameters.instanceId] + GameModeArgs(parameters.gamemode);

    if parameters.profile.Some? {
      args := args + ["--profile"];
      args := args + [parameters.profile.value];
    }
    assert args == ["--launch", parameters.instanceId] + GameModeArgs(parameters.gamemode) + ProfileArgs(parameters.profile);
  }

  // ---- version ----

  const VERSION_PREFIX := "PrismLauncher "

  /** `sep` occurs in `s` at `i`. */
  predicate OccursAt(s: string, sep: string, i: nat) {
    i + |sep| <= |s| && s[i..i + |sep|] == sep
  }

  /** The first position where `sep` occurs in `s`, as `str::find`. */
  function Find(s: string, sep: string): (r: Option<nat>)
    requires sep != []
    ensures r.Some? ==> OccursAt(s, sep, r.value)
    ensures r.Some? ==> forall j :: 0 <= j < r.value ==> !OccursAt(s, sep, j)
    ensures r.None? ==> forall j :: 0 <= j <= |s| ==> !OccursAt(s, sep, j)
    decreases |s|
  {
    if |s| < |sep| then None
    else if s[..|sep|] == sep then Some(0)
    else
      OccursInTail(s, sep);
      match Find(s[1..], sep)
      case None => None
      case Some(i) => Some(i + 1)
  }

  lemma OccursInTail(s: string, sep: string)
    requires s != []
    ensures forall j: nat :: OccursAt(s[1..], sep, j) <==> OccursAt(s, sep, j + 1)
    ensures forall j: nat :: 1 <= j ==> (OccursAt(s, sep, j) <==> OccursAt(s[1..], sep, j - 1))
  {
    forall j: nat ensures OccursAt(s[1..], sep, j) <==> OccursAt(s, sep, j + 1) {
      if j + |sep| <= |s[1..]| {
        assert s[1..][j..j + |sep|] == s[j + 1..j + 1 + |sep|];
      }
    }
  }

  /** `str::split` with a non-empty pattern: the pieces between the matches, found left to right without overlap. */
  function Split(s: string, sep: string): (parts: seq<string>)
    requires sep != []
    ensures 0 < |parts|
    decreases |s|
  {
    match Find(s, sep)
    case None => [s]
    case Some(i) => [s[..i]] + Split(s[i + |sep|..], sep)
  }

  function Concat(parts: seq<string>): string {
    if parts == [] then [] else parts[0] + Concat(parts[1..])
  }

  /** The pieces joined back together with `sep` between them. */
  function JoinWith(parts: seq<string>, sep: string): string {
    if parts == [] then []
    else if |parts| == 1 then parts[0]
    else parts[0] + sep + JoinWith(parts[1..], sep)
  }

  /**
   * `version` after the launcher has printed `stdout`: split at "PrismLauncher "
   * and collected into one string, that is, every occurrence of "PrismLauncher "
   * that a left-to-right scan meets is removed, and nothing else.
   */
  function Version(stdout: string): (v: string)
    ensures v == RemoveAll(stdout, VERSION_PREFIX)
  {
    SplitConcatRemovesAll(stdout, VERSION_PREFIX);
    Concat(Split(stdout, VERSION_PREFIX))
  }

  /** Scanning from the left, drop every occurrence of `sep` and keep every other character. */
  function RemoveAll(s: string, sep: string): string
    requires sep != []
    decreases |s|
  {
    if s == [] then []
    else if OccursAt(s, sep, 0) then RemoveAll(s[|sep|..], sep)
    else [s[0]] + RemoveAll(s[1..], sep)
  }

  /** Splitting loses nothing: the pieces joined with the separator are the text. */
  lemma {:induction false} SplitJoinRoundTrip(s: string, sep: string)
    requires sep != []
    ensures JoinWith(Split(s, sep), sep) == s
    decreases |s|
  {
    match Find(s, sep)
    case None =>
    case Some(i) =>
      var rest := s[i + |sep|..];
      SplitJoinRoundTrip(rest, sep);
      assert s == s[..i] + sep + rest;
  }

  /** No piece contains the separator. */
  lemma {:induction false} SplitPiecesFree(s: string, sep: string)
    requires sep != []
    ensures forall p :: p in Split(s, sep) ==> Find(p, sep) == None
    decreases |s|
  {
    match Find(s, sep)
    case None =>
    case Some(i) =>
      SplitPiecesFree(s[i + |sep|..], sep);
      var head := s[..i];
      forall j | 0 <= j <= |head| ensures !OccursAt(head, sep, j) {
        if OccursAt(head, sep, j) {
          assert s[j..j + |sep|] == head[j..j + |sep|];
          assert OccursAt(s, sep, j);
        }
      }
      assert Find(head, sep) == None;
      assert Split(s, sep) == [head] + Split(s[i + |sep|..], sep);
  }

  /** Where `sep` does not start before `i`, removal leaves the first `i` characters as they are. */
  lemma {:induction false} RemoveAllPrefix(s: string, sep: string, i: nat)
    requires sep != [] && i <= |s|
    requires forall j :: 0 <= j < i ==> !OccursAt(s, sep, j)
    ensures RemoveAll(s, sep) == s[..i] + RemoveAll(s[i..], sep)
    decreases i
  {
    if i > 0 {
      assert !OccursAt(s, sep, 0);
      forall j | 0 <= j < i - 1 ensures !OccursAt(s[1..], sep, j) {
        assert !OccursAt(s, sep, j + 1);
        if j + |sep| <= |s[1..]| {
          assert s[1..][j..j + |sep|] == s[j + 1..j + 1 + |sep|];
        }
      }
      RemoveAllPrefix(s[1..], sep, i - 1);
      assert s[1..][i - 1..] == s[i..];
      assert s[..i] == [s[0]] + s[1..][..i - 1];
    }
  }

  /** Collecting the pieces of a split removes every occurrence of the separator that a left-to-right scan meets. */
  lemma {:induction false} SplitConcatRemovesAll(s: string, sep: string)
    requires sep != []
    ensures Concat(Split(s, sep)) == RemoveAll(s, sep)
    decreases |s|
  {
    match Find(s, sep)
    case None =>
      RemoveAllPrefix(s, sep, |s|);
      assert s[|s|..] == [];
    case Some(i) =>
      var rest := s[i + |sep|..];
      SplitConcatRemovesAll(rest, sep);
      RemoveAllPrefix(s, sep, i);
      assert s[i..][|sep|..] == rest;
  }

  /** The launcher's "PrismLauncher <version>" answer yields the version text. */
  lemma VersionOfBanner(v: string)
    requires Find(v, VERSION_PREFIX) == None
    ensures Version(VERSION_PREFIX + v) == v
  {
    var s := VERSION_PREFIX + v;
    assert OccursAt(s, VERSION_PREFIX, 0);
    assert Find(s, VERSION_PREFIX) == Some(0);
    assert s[|VERSION_PREFIX|..] == v;
    assert Split(v, VERSION_PREFIX) == [v];
    assert Split(s, VERSION_PREFIX) == [""] + [v];
    assert Concat([v]) == v + Concat([]);
  }

  // ---- list_accounts ----

  /** `char::is_whitespace`: the characters with the Unicode White_Space property. */
  predicate IsWhitespace(c: char) {
    ('\t' <= c <= '\r') || c == ' ' || c == '\U{0085}' || c == '\U{00A0}' || c == '\U{1680}'
    || ('\U{2000}' <= c <= '\U{200A}') || c == '\U{2028}' || c == '\U{2029}' || c == '\U{202F}'
    || c == '\U{205F}' || c == '\U{3000}'
  }

  predicate NoWhitespace(s: string) {
    forall i :: 0 <= i < |s| ==> !IsWhitespace(s[i])
  }

  /** The position of the first whitespace character. */
  function FindWhitespace(s: string): (r: Option<nat>)
    ensures r.Some? ==> r.value < |s| && IsWhitespace(s[r.value]) && NoWhitespace(s[..r.value])
    ensures r.None? ==> NoWhitespace(s)
  {
    if s == [] then None
    else if IsWhitespace(s[0]) then Some(0)
    else
      match FindWhitespace(s[1..])
      case None => None
      case Some(i) =>
        assert s[..i + 1] == [s[0]] + s[1..][..i];
        Some(i + 1)
  }

  /** Every character of `w` is whitespace. */
  predicate AllWhitespace(w: string) {
    forall i :: 0 <= i < |w| ==> IsWhitespace(w[i])
  }

  /** The whitespace characters of `s`, in order. */
  function Whitespaces(s: string): (w: string)
    ensures AllWhitespace(w)
    ensures |w| <= |s|
  {
    if s == [] then []
    else (if IsWhitespace(s[0]) then [s[0]] else []) + Whitespaces(s[1..])
  }

  /** The pieces with one separator character put back between each two. */
  function Interleave(pieces: seq<string>, separators: string): string
    requires |pieces| == |separators| + 1
    decreases |separators|
  {
    if separators == [] then pieces[0]
    else pieces[0] + [separators[0]] + Interleave(pieces[1..], separators[1..])
  }

  lemma {:induction false} WhitespacesOfNone(s: string)
    requires NoWhitespace(s)
    ensures Whitespaces(s) == []
    decreases |s|
  {
    if s != [] {
      WhitespacesOfNone(s[1..]);
    }
  }

  /** Where the first whitespace character is at `i`, it is the first of the whitespace characters. */
  lemma {:induction false} WhitespacesAt(s: string, i: nat)
    requires i < |s| && IsWhitespace(s[i]) && NoWhitespace(s[..i])
    ensures Whitespaces(s) == [s[i]] + Whitespaces(s[i + 1..])
    decreases i
  {
    if i > 0 {
      assert !IsWhitespace(s[..i][0]);
      assert s[1..][..i - 1] == s[..i][1..];
      WhitespacesAt(s[1..], i - 1);
      assert s[1..][i - 1 + 1..] == s[i + 1..];
    }
  }

  /**
   * `str::split(char::is_whitespace)`: the pieces between whitespace characters,
   * empty ones included. No piece holds whitespace, there is one piece more than
   * whitespace characters, and putting those characters back between the pieces
   * gives the text again.
   */
  function SplitAtWhitespace(s: string): (pieces: seq<string>)
    ensures forall p :: p in pieces ==> NoWhitespace(p)
    ensures |pieces| == |Whitespaces(s)| + 1
    ensures Interleave(pieces, Whitespaces(s)) == s
    decreases |s|
  {
    match FindWhitespace(s)
    case None =>
      WhitespacesOfNone(s);
      [s]
    case Some(i) =>
      var rest := SplitAtWhitespace(s[i + 1..]);
      WhitespacesAt(s, i);
      assert ([s[..i]] + rest)[1..] == rest;
      assert s == s[..i] + [s[i]] + s[i + 1..];
      [s[..i]] + rest
  }

  /** The non-empty pieces: each one is kept, and every kept piece is one of them. */
  function NonEmpty(pieces: seq<string>): (r: seq<string>)
    ensures forall p :: p in r ==> p in pieces && p != []
    ensures forall p :: p in pieces && p != [] ==> p in r
    ensures Concat(r) == Concat(pieces)
  {
    if pieces == [] then []
    else if pieces[0] == [] then NonEmpty(pieces[1..])
    else [pieces[0]] + NonEmpty(pieces[1..])
  }

  /** A single piece is kept exactly when it is non-empty. */
  lemma NonEmptySingle(p: string)
    ensures NonEmpty([p]) == (if p == [] then [] else [p])
  {
    assert [p][1..] == [];
  }

  /** The first piece is kept or dropped on its own. */
  lemma NonEmptyFirst(a: seq<string>)
    requires a != []
    ensures NonEmpty(a) == NonEmpty([a[0]]) + NonEmpty(a[1..])
  {
    NonEmptySingle(a[0]);
  }

  lemma DropFirstOfAppend<T>(a: seq<T>, b: seq<T>)
    requires a != []
    ensures (a + b)[0] == a[0] && (a + b)[1..] == a[1..] + b
  {
  }

  /** head + (tail + rest) regrouped as (head + tail) + rest, on names for both sides. */
  lemma Regroup<T>(head: seq<T>, tail: seq<T>, rest: seq<T>, whole: seq<T>, tailRest: seq<T>, headTail: seq<T>)
    requires whole == head + tailRest && tailRest == tail + rest
    requires headTail == head + tail
    ensures whole == headTail + rest
  {
    assert (head + tail) + rest == head + (tail + rest);
  }

  /** One step of NonEmptyAppend: from the claim for a[1..] to the claim for a. */
  lemma NonEmptyAppendStep(a: seq<string>, b: seq<string>)
    requires a != []
    requires NonEmpty(a[1..] + b) == NonEmpty(a[1..]) + NonEmpty(b)
    ensures NonEmpty(a + b) == NonEmpty(a) + NonEmpty(b)
  {
    NonEmptyFirst(a);
    NonEmptyFirst(a + b);
    DropFirstOfAppend(a, b);
    Regroup(NonEmpty([a[0]]), NonEmpty(a[1..]), NonEmpty(b), NonEmpty(a + b), NonEmpty(a[1..] + b), NonEmpty(a));
  }

  /**
   * Keeping the non-empty pieces of a concatenation keeps those of each part, in
   * order: with `NonEmptySingle`, every non-empty piece is kept once, where it was.
   */
  lemma {:induction false} NonEmptyAppend(a: seq<string>, b: seq<string>)
    ensures NonEmpty(a + b) == NonEmpty(a) + NonEmpty(b)
    decreases |a|
  {
    if a == [] {
      assert a + b == b;
    } else {
      NonEmptyAppend(a[1..], b);
      NonEmptyAppendStep(a, b);
    }
  }

  /**
   * `list_accounts` after the launcher has printed `stdout`: `split_whitespace`,
   * that is, the non-empty pieces. Every name is non-empty and free of whitespace.
   */
  function ListAccounts(stdout: string): (names: seq<string>)
    ensures forall name :: name in names ==> name != [] && NoWhitespace(name)
  {
    NonEmpty(SplitAtWhitespace(stdout))
  }

  /** Together, in order, the account names are all the non-whitespace characters of the output. */
  lemma ListAccountsKeepsText(stdout: string)
    ensures Concat(ListAccounts(stdout)) == RemoveWhitespace(stdout)
  {
    ConcatSplitAtWhitespace(stdout);
  }

  function RemoveWhitespace(s: string): string {
    if s == [] then []
    else if IsWhitespace(s[0]) then RemoveWhitespace(s[1..])
    else [s[0]] + RemoveWhitespace(s[1..])
  }

  lemma {:induction false} RemoveWhitespaceAppend(a: string, b: string)
    ensures RemoveWhitespace(a + b) == RemoveWhitespace(a) + RemoveWhitespace(b)
    decreases |a|
  {
    if a == [] {
      assert a + b == b;
    } else {
      RemoveWhitespaceAppend(a[1..], b);
      assert (a + b)[0] == a[0] && (a + b)[1..] == a[1..] + b;
    }
  }

  lemma {:induction false} RemoveNoWhitespace(s: string)
    requires NoWhitespace(s)
    ensures RemoveWhitespace(s) == s
    decreases |s|
  {
    if s != [] {
      RemoveNoWhitespace(s[1..]);
    }
  }

  lemma {:induction false} ConcatSplitAtWhitespace(s: string)
    ensures Concat(SplitAtWhitespace(s)) == RemoveWhitespace(s)
    decreases |s|
  {
    match FindWhitespace(s)
    case None =>
      RemoveNoWhitespace(s);
    case Some(i) =>
      ConcatSplitAtWhitespace(s[i + 1..]);
      RemoveUpToWhitespace(s, i);
  }

  /** Removing whitespace keeps a whitespace-free prefix, drops the whitespace after it, and goes on. */
  lemma RemoveUpToWhitespace(s: string, i: nat)
    requires i < |s| && IsWhitespace(s[i]) && NoWhitespace(s[..i])
    ensures RemoveWhitespace(s) == s[..i] + RemoveWhitespace(s[i + 1..])
  {
    assert s == s[..i] + [s[i]] + s[i + 1..];
    RemoveWhitespaceAppend(s[..i] + [s[i]], s[i + 1..]);
    RemoveWhitespaceAppend(s[..i], [s[i]]);
    RemoveNoWhitespace(s[..i]);
  }

  lemma FindWhitespaceAt(s: string, i: nat)
    requires i < |s| && IsWhitespace(s[i]) && NoWhitespace(s[..i])
    ensures FindWhitespace(s) == Some(i)
  {
    match FindWhitespace(s)
    case None =>
    case Some(r) =>
  }

  /**
   * An output laid out as `separators[0]`, `names[0]`, `separators[1]`, ...,
   * `names[n - 1]`, `separators[n]`.
   */
  function Layout(names: seq<string>, separators: seq<string>): string
    requires |separators| == |names| + 1
    decreases |names|
  {
    if names == [] then separators[0]
    else separators[0] + names[0] + Layout(names[1..], separators[1..])
  }

  /**
   * Separators that keep names apart: all whitespace, and non-empty between two
   * names; the ones before the first and after the last name may be empty.
   */
  predicate Separates(names: seq<string>, separators: seq<string>) {
    && |separators| == |names| + 1
    && (forall i :: 0 <= i < |separators| ==> AllWhitespace(separators[i]))
    && (forall i :: 0 < i < |names| ==> separators[i] != [])
  }

  /** A leading whitespace character does not change the names read. */
  lemma ListAccountsSkip(c: char, t: string)
    requires IsWhitespace(c)
    ensures ListAccounts([c] + t) == ListAccounts(t)
  {
    FindWhitespaceAt([c] + t, 0);
    assert ([c] + t)[1..] == t;
    assert SplitAtWhitespace([c] + t) == [[]] + SplitAtWhitespace(t);
  }

  /** Leading whitespace does not change the names read. */
  lemma {:induction false} ListAccountsSkipAll(w: string, t: string)
    requires AllWhitespace(w)
    ensures ListAccounts(w + t) == ListAccounts(t)
    decreases |w|
  {
    if w != [] {
      calc {
        ListAccounts(w + t);
      == { assert w + t == [w[0]] + (w[1..] + t); }
        ListAccounts([w[0]] + (w[1..] + t));
      == { ListAccountsSkip(w[0], w[1..] + t); }
        ListAccounts(w[1..] + t);
      == { ListAccountsSkipAll(w[1..], t); }
        ListAccounts(t);
      }
    } else {
      assert w + t == t;
    }
  }

  /** A name that ends the output or is followed by whitespace is read as the next name. */
  lemma ListAccountsName(name: string, t: string)
    requires name != [] && NoWhitespace(name)
    requires t == [] || IsWhitespace(t[0])
    ensures ListAccounts(name + t) == [name] + ListAccounts(t)
  {
    var s := name + t;
    assert s[..|name|] == name;
    if t == [] {
      assert s == name;
      assert SplitAtWhitespace(name) == [name];
      assert NonEmpty([name]) == [name] + NonEmpty([]);
      assert SplitAtWhitespace([]) == [[]];
    } else {
      FindWhitespaceAt(s, |name|);
      assert s[|name| + 1..] == t[1..];
      var pieces := SplitAtWhitespace(s);
      assert pieces == [name] + SplitAtWhitespace(t[1..]);
      assert pieces[0] == name && pieces[1..] == SplitAtWhitespace(t[1..]);
      assert NonEmpty(pieces) == [name] + NonEmpty(pieces[1..]);
      assert t == [t[0]] + t[1..];
      ListAccountsSkip(t[0], t[1..]);
    }
  }

  /** Names that are non-empty and hold no whitespace. */
  predicate Names(names: seq<string>) {
    forall name :: name in names ==> name != [] && NoWhitespace(name)
  }

  /**
   * Non-empty, whitespace-free names laid out with any whitespace between them
   * (at least one character between two names, any amount before the first and
   * after the last) are read back exactly.
   */
  lemma {:induction false} ListAccountsOfLayout(names: seq<string>, separators: seq<string>)
    requires Names(names) && Separates(names, separators)
    ensures ListAccounts(Layout(names, separators)) == names
    decreases |names|
  {
    if names == [] {
      assert separators[0] + [] == separators[0];
      ListAccountsSkipAll(separators[0], []);
      assert SplitAtWhitespace([]) == [[]];
    } else {
      LayoutTail(names, separators);
      ListAccountsOfLayout(names[1..], separators[1..]);
      ListAccountsOfLayoutStep(names, separators);
    }
  }

  /** What follows the first name of a layout is a layout of the other names. */
  lemma LayoutTail(names: seq<string>, separators: seq<string>)
    requires Names(names) && Separates(names, separators) && names != []
    ensures Names(names[1..]) && Separates(names[1..], separators[1..])
  {
    forall name | name in names[1..] ensures name != [] && NoWhitespace(name) {
      assert name in names;
    }
    forall i | 0 < i < |names[1..]| ensures separators[1..][i] != [] {
      assert separators[i + 1] != [];
    }
  }

  /** The step of `ListAccountsOfLayout`: the first name is read, then the rest as before. */
  lemma ListAccountsOfLayoutStep(names: seq<string>, separators: seq<string>)
    requires Names(names) && Separates(names, separators) && names != []
    requires ListAccounts(Layout(names[1..], separators[1..])) == names[1..]
    ensures ListAccounts(Layout(names, separators)) == names
  {
    var first, rest := names[0], Layout(names[1..], separators[1..]);
    assert first in names;
    LayoutStart(names[1..], separators[1..]);
    LayoutSkipsSeparator(names, separators);
    ListAccountsName(first, rest);
    assert names == [first] + names[1..];
  }

  /** The whitespace before the first name of a layout does not change the names read. */
  lemma LayoutSkipsSeparator(names: seq<string>, separators: seq<string>)
    requires |separators| == |names| + 1 && names != [] && AllWhitespace(separators[0])
    ensures ListAccounts(Layout(names, separators)) == ListAccounts(names[0] + Layout(names[1..], separators[1..]))
  {
    var tail := names[0] + Layout(names[1..], separators[1..]);
    assert Layout(names, separators) == separators[0] + tail;
    ListAccountsSkipAll(separators[0], tail);
  }

  /** A layout whose first separator is non-empty when a name follows starts with whitespace, if with anything. */
  lemma LayoutStart(names: seq<string>, separators: seq<string>)
    requires Separates(names, separators)
    requires names != [] ==> separators[0] != []
    ensures Layout(names, separators) == [] || IsWhitespace(Layout(names, separators)[0])
  {
    if separators[0] != [] {
      assert Layout(names, separators)[0] == separators[0][0];
    }
  }

  /** Whitespace put in front of a layout joins its first separator. */
  lemma LayoutAfterWhitespace(w: string, names: seq<string>, separators: seq<string>)
    requires AllWhitespace(w) && Separates(names, separators)
    ensures var separators' := [w + separators[0]] + separators[1..];
      && Separates(names, separators')
      && Layout(names, separators') == w + Layout(names, separators)
  {
    var separators' := [w + separators[0]] + separators[1..];
    assert separators'[1..] == separators[1..];
    assert AllWhitespace(separators'[0]);
    forall i | 0 < i < |separators'| ensures separators'[i] == separators[i] {
    }
  }

  /** A name put in front of a layout that starts with whitespace heads it, with nothing before it. */
  lemma LayoutAfterName(first: string, names: seq<string>, separators: seq<string>)
    requires Separates(names, separators) && separators[0] != []
    ensures && Separates([first] + names, [[]] + separators)
            && Layout([first] + names, [[]] + separators) == first + Layout(names, separators)
  {
    var names', separators' := [first] + names, [[]] + separators;
    assert names'[1..] == names && separators'[1..] == separators;
    forall i | 0 < i < |separators'| ensures separators'[i] == separators[i - 1] {
    }
  }

  /** `separators` lay `names` out as `stdout`, with whitespace at its head only if `stdout` starts with whitespace. */
  predicate LaysOut(stdout: string, names: seq<string>, separators: seq<string>) {
    && Separates(names, separators)
    && Layout(names, separators) == stdout
    && (stdout != [] && IsWhitespace(stdout[0]) ==> separators[0] != [])
  }

  /**
   * Every output is a layout of the names read from it: the names account for
   * the whole output, and what lies around them is whitespace.
   */
  lemma {:induction false} LayoutOfListAccounts(stdout: string)
    ensures exists separators :: LaysOut(stdout, ListAccounts(stdout), separators)
    decreases |stdout|
  {
    if stdout == [] {
      assert SplitAtWhitespace([]) == [[]];
      assert LaysOut(stdout, ListAccounts(stdout), [[]]);
    } else if IsWhitespace(stdout[0]) {
      LayoutOfListAccounts(stdout[1..]);
      var separators :| LaysOut(stdout[1..], ListAccounts(stdout[1..]), separators);
      LaysOutAfterWhitespace(stdout, separators);
    } else {
      match FindWhitespace(stdout)
      case None =>
        LaysOutOneName(stdout);
      case Some(i) =>
        LayoutOfListAccounts(stdout[i..]);
        var separators :| LaysOut(stdout[i..], ListAccounts(stdout[i..]), separators);
        LaysOutAfterName(stdout, i, separators);
    }
  }

  /** A step of `LayoutOfListAccounts`: a leading whitespace character joins the first separator. */
  lemma LaysOutAfterWhitespace(stdout: string, separators: seq<string>)
    requires stdout != [] && IsWhitespace(stdout[0])
    requires LaysOut(stdout[1..], ListAccounts(stdout[1..]), separators)
    ensures LaysOut(stdout, ListAccounts(stdout), [[stdout[0]] + separators[0]] + separators[1..])
  {
    var c, t := stdout[0], stdout[1..];
    var names := ListAccounts(t);
    assert stdout == [c] + t;
    ListAccountsSkip(c, t);
    LayoutAfterWhitespace([c], names, separators);
    var separators' := [[c] + separators[0]] + separators[1..];
    assert Separates(names, separators') && Layout(names, separators') == stdout;
  }

  /** A step of `LayoutOfListAccounts`: a whitespace-free output is one name. */
  lemma LaysOutOneName(stdout: string)
    requires stdout != [] && NoWhitespace(stdout)
    ensures LaysOut(stdout, ListAccounts(stdout), [[], []])
  {
    ListAccountsName(stdout, []);
    assert stdout + [] == stdout;
    assert SplitAtWhitespace([]) == [[]];
    assert Layout([stdout], [[], []]) == [] + stdout + Layout([], [[]]);
  }

  /** A step of `LayoutOfListAccounts`: a leading name is laid out with nothing before it. */
  lemma LaysOutAfterName(stdout: string, i: nat, separators: seq<string>)
    requires 0 < i < |stdout| && IsWhitespace(stdout[i]) && NoWhitespace(stdout[..i])
    requires LaysOut(stdout[i..], ListAccounts(stdout[i..]), separators)
    ensures LaysOut(stdout, ListAccounts(stdout), [[]] + separators)
  {
    var first, t := stdout[..i], stdout[i..];
    assert stdout == first + t && t[0] == stdout[i];
    ListAccountsName(first, t);
    LayoutAfterName(first, ListAccounts(t), separators);
  }
}
