/**
 * The "configure" screen: the form in which a bot is set up. It keeps the raw
 * text of each field and, whenever the connection text changes, turns it into a
 * typed `GameMode`; on "Submit" it only reports an instruction to the application.
 */
module ConfigureScreen {
  import opened Wrappers
  import opened Net
  import opened IpText
  import opened PrismLauncher
  import opened Actions

  datatype Instruction = Submit

  datatype Message =
    | BotNameChange(name: string)
    | InstanceNameChange(name: string)
    | IsMultiplayer(flag: bool)
    | GamemodeChange(text: string)
    | Submit

  /** The form's fields as one value. */
  datatype Draft = Draft(
    username: string,
    instanceName: string,
    isMultiplayer: bool,
    gamemodeRaw: string,
    gamemode: Option<GameMode>)

  /** `Default for Configure`: empty texts, multiplayer on, and no game mode derived yet. */
  function DefaultDraft(): (draft: Draft)
    ensures draft.username == [] && draft.instanceName == [] && draft.gamemodeRaw == []
    ensures draft.isMultiplayer && draft.gamemode.None?
  {
    Draft([], [], true, [], None)
  }

  /**
   * The connection text as a game mode. In single-player mode the text is the
   * world name. In multiplayer mode the text is parsed as an IP address (IPv4
   * first, then IPv6), and anything else is taken verbatim as a DNS name; the
   * port is always that of `Address::default()`.
   */
  function Resolve(isMultiplayer: bool, text: string): (g: GameMode)
    ensures !isMultiplayer ==> g == SinglePlayer(text)
    ensures isMultiplayer ==> g.MultiPlayer? && g.address.port == 25565
    ensures isMultiplayer && ParseIpv4(text).Some? ==>
      g.address.hostname == Ipv4(ParseIpv4(text).value)
    ensures isMultiplayer && ParseIpv4(text).None? && ParseIpv6(text).Some? ==>
      g.address.hostname == Ipv6(ParseIpv6(text).value)
    ensures isMultiplayer && ParseIpv4(text).None? && ParseIpv6(text).None? ==>
      g.address.hostname == Dns(text)
  {
    ParseIpAddrPrecedence(text);
    if isMultiplayer then
      match ParseIpAddr(text)
      case Some(V4(ip4)) => MultiPlayer(DefaultAddress().(hostname := Ipv4(ip4)))
      case Some(V6(ip6)) => MultiPlayer(DefaultAddress().(hostname := Ipv6(ip6)))
      case None => MultiPlayer(DefaultAddress().(hostname := Dns(text)))
    else
      SinglePlayer(text)
  }

  /** A DNS name is chosen only for text that is not an IP address. */
  lemma ResolveDnsOnlyForNonIp(text: string)
    ensures Resolve(true, text).address.hostname.Dns? <==> ParseIpAddr(text).None?
  {
    ParseIpAddrPrecedence(text);
  }

  /**
   * Typing back the text form of a resolved host resolves to the same game mode:
   * the classification agrees with the way hosts are written out.
   */
  lemma ResolveHostTextRoundTrip(text: string)
    ensures Resolve(true, HostnameToString(Resolve(true, text).address.hostname)) == Resolve(true, text)
  {
    HostnameTextParses(Resolve(true, text).address.hostname);
  }

  /** The text form of any IPv4 address resolves to that address on the default port. */
  lemma ResolveIpv4Text(addr: Ipv4Addr)
    ensures Resolve(true, Ipv4ToString(addr)) == MultiPlayer(Address(Ipv4(addr), 25565))
  {
    Ipv4RoundTrip(addr);
  }

  /** The text form of any IPv6 address resolves to that address on the default port. */
  lemma ResolveIpv6Text(addr: Ipv6Addr)
    ensures Resolve(true, Ipv6ToString(addr)) == MultiPlayer(Address(Ipv6(addr), 25565))
  {
    Ipv6RoundTrip(addr);
  }

  /**
   * `Configure::update` on the form's fields: each message overwrites one field,
   * a connection text change also re-derives the game mode from the current
   * mode flag, and the action carries an instruction only for "Submit".
   */
  function Transition(draft: Draft, message: Message): (r: (Draft, Action<Instruction, Message>))
    ensures r.0.username == (if message.BotNameChange? then message.name else draft.username)
    ensures r.0.instanceName == (if message.InstanceNameChange? then message.name else draft.instanceName)
    ensures r.0.isMultiplayer == (if message.IsMultiplayer? then message.flag else draft.isMultiplayer)
    ensures r.0.gamemodeRaw == (if message.GamemodeChange? then message.text else draft.gamemodeRaw)
    ensures message.GamemodeChange? ==> r.0.gamemode == Some(Resolve(draft.isMultiplayer, message.text))
    ensures !message.GamemodeChange? ==> r.0.gamemode == draft.gamemode
    ensures r.1.instruction == (if message.Submit? then Some(Instruction.Submit) else None)
    ensures r.1.task == Batch([])
  {
    match message
    case BotNameChange(name) => (draft.(username := name), Action.Nothing())
    case InstanceNameChange(name) => (draft.(instanceName := name), Action.Nothing())
    case IsMultiplayer(flag) => (draft.(isMultiplayer := flag), Action.Nothing())
    case GamemodeChange(text) =>
      (draft.(gamemodeRaw := text, gamemode := Some(Resolve(draft.isMultiplayer, text))), Action.Nothing())
    case Submit => (draft, Action.New(Instruction.Submit))
  }

  /**
   * Switching the mode does not re-derive the game mode: whatever was derived
   * from the text before stays until the text changes again.
   */
  lemma ToggleKeepsGamemode(draft: Draft, flag: bool)
    ensures Transition(draft, IsMultiplayer(flag)).0.gamemode == draft.gamemode
    ensures Transition(draft, IsMultiplayer(flag)).0.gamemodeRaw == draft.gamemodeRaw
  {
  }

  /** Once any connection text has been entered, the form holds a game mode, and it stays. */
  lemma {:induction false} GamemodeStaysDerived(draft: Draft, messages: seq<Message>)
    requires draft.gamemode.Some? || exists i :: 0 <= i < |messages| && messages[i].GamemodeChange?
    ensures Replay(draft, messages).gamemode.Some?
    decreases |messages|
  {
    if messages != [] {
      var next := Transition(draft, messages[0]).0;
      if next.gamemode.None? {
        var i :| 0 <= i < |messages| && messages[i].GamemodeChange?;
        assert i != 0;
        assert messages[1..][i - 1].GamemodeChange?;
      }
      GamemodeStaysDerived(next, messages[1..]);
    }
  }

  /** The form after a series of messages. */
  function Replay(draft: Draft, messages: seq<Message>): Draft
    decreases |messages|
  {
    if messages == [] then draft else Replay(Transition(draft, messages[0]).0, messages[1..])
  }

  /** The form of the configure screen, updated field by field. */
  class Configure {
    var username: string
    var instanceName: string
    var isMultiplayer: bool
    var gamemodeRaw: string
    var gamemode: Option<GameMode>

    /** The fields as one value. */
    function State(): Draft
      reads this
    {
      Draft(username, instanceName, isMultiplayer, gamemodeRaw, gamemode)
    }

    /** `Configure::new()`, that is, `Default for Configure`. */
    constructor ()
      ensures State() == DefaultDraft()
    {
      username := [];
      instanceName := [];
      isMultiplayer := true;
      gamemode := None;
      gamemodeRaw := [];
    }

    method Update(message: Message) returns (action: Action<Instruction, Message>)
      modifies this
      ensures (State(), action) == Transition(old(State()), message)
    {
      match message {
        case BotNameChange(name) => username := name;
        case InstanceNameChange(name) => instanceName := name;
        case IsMultiplayer(flag) => isMultiplayer := flag;
        case GamemodeChange(name) =>
          gamemodeRaw := name;
          gamemode := Some(Resolve(isMultiplayer, name));
        case Submit =>
          return Action.New(Instruction.Submit);
      }
      action := Action.Nothing();
    }
  }
}
