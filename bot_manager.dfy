/**
 * The application: the registry of bots and the screen selector. It routes the
 * configure screen's messages to the form and carries out the instruction the
 * form reports: on "Submit" it moves the username, instance name and game mode
 * out of the form into a new, offline bot at the end of the registry and shows
 * the table. The source aborts with "Not initialized" when no game mode has been
 * derived; here that abort is the outcome `Failure("Not initialized")`, and the
 * state is left as it was.
 */
module BotManager {
  import opened Wrappers
  import opened PrismLauncher
  import opened Net
  import opened Actions
  import ConfigureScreen

  /** Which screen is shown. */
  datatype Screen = Configure | Table

  /** The derived `Default` of `Screen`: the variant marked default, the table. */
  function DefaultScreen(): (screen: Screen)
    ensures screen.Table?
  {
    Table
  }

  datatype Status = Offline | Online

  /** The derived `Default` of `Status`: the least status. */
  function DefaultStatus(): (status: Status)
    ensures forall other: Status :: StatusCmp(status, other) != Greater
  {
    Offline
  }

  datatype Ordering = Less | Equal | Greater

  /** The derived `Ord` of `Status`: variants compare by declaration order. */
  function StatusCmp(a: Status, b: Status): (r: Ordering)
    ensures r == Less <==> a.Offline? && b.Online?
    ensures r == Greater <==> a.Online? && b.Offline?
    ensures r == Equal <==> a == b
  {
    var ra, rb := (if a.Offline? then 0 else 1), (if b.Offline? then 0 else 1);
    if ra < rb then Less else if ra == rb then Equal else Greater
  }

  /** `Offline < Online`, and the comparison is a total order that agrees with equality. */
  lemma StatusOrder(a: Status, b: Status, c: Status)
    ensures StatusCmp(Offline, Online) == Less
    ensures StatusCmp(a, b) == Equal <==> a == b
    ensures StatusCmp(a, b) == Less <==> StatusCmp(b, a) == Greater
    ensures StatusCmp(a, b) == Less && StatusCmp(b, c) == Less ==> StatusCmp(a, c) == Less
    ensures StatusCmp(DefaultStatus(), a) != Greater
  {
  }

  /** `Display for Status`. */
  function StatusToString(status: Status): (s: string)
    ensures s == (if status.Offline? then "Offline" else "Online")
  {
    match status
    case Offline => "Offline"
    case Online => "Online"
  }

  type i16 = x: int | -0x8000 <= x < 0x8000
  type i32 = x: int | -0x8000_0000 <= x < 0x8000_0000

  datatype Coordinates = Coordinates(x: i32, y: i16, z: i32)

  datatype Dimension = Overworld | Nether | End

  /** A live game-state snapshot; nothing in the source fills it in yet. */
  datatype GameInfomation = GameInfomation(coordinates: Coordinates, dimension: Dimension, memoryUsage: nat)

  /** One bot: one account on one launcher instance, joining one world or server. */
  datatype Bot = Bot(
    username: string,
    status: Status,
    instance: string,
    server: GameMode,
    gameInfomation: Option<GameInfomation>)

  /** `Bot::new`: a bot starts offline and without game information, with the given values as they are. */
  function NewBot(username: string, instanceName: string, server: GameMode): (bot: Bot)
    ensures bot.status == Offline && bot.gameInfomation == None
    ensures bot.username == username && bot.instance == instanceName && bot.server == server
  {
    Bot(username, Offline, instanceName, server, None)
  }

  /** An instruction from a screen; the table screen's instruction type has no values, so it is left out. */
  datatype Instruction = Configure(instruction: ConfigureScreen.Instruction)

  /** The application's messages; the table screen's message type has no values, so it is left out. */
  datatype Message =
    | Exit
    | Screen(screen: Screen)
    | Configure(message: ConfigureScreen.Message)

  /** The application's state as one value: the registry, the screen shown, and the form. */
  datatype AppState = AppState(bots: seq<Bot>, screen: Screen, configure: ConfigureScreen.Draft)

  /** `Application::new()`: no bots, the configure screen, a default form. */
  function InitialState(): AppState {
    AppState([], Screen.Configure, ConfigureScreen.DefaultDraft())
  }

  /** The derived `Default` of `Application`: the same, but showing the table. */
  function DefaultState(): AppState {
    AppState([], DefaultScreen(), ConfigureScreen.DefaultDraft())
  }

  const NOT_INITIALIZED := "Not initialized"

  /**
   * `Application::perform`: "Submit" moves the username, instance name and game
   * mode out of the form into a new bot appended to the registry and shows the
   * table; it fails, changing nothing, when the form holds no game mode.
   */
  function PerformStep(s: AppState, instruction: Instruction): (r: Result<AppState, string>)
    ensures r.Failure? <==> s.configure.gamemode.None?
    ensures r.Failure? ==> r.error == NOT_INITIALIZED
    ensures r.Success? ==> |r.value.bots| == |s.bots| + 1 && r.value.bots[..|s.bots|] == s.bots
    ensures r.Success? ==>
      r.value.bots[|s.bots|] == NewBot(s.configure.username, s.configure.instanceName, s.configure.gamemode.value)
    ensures r.Success? ==> r.value.screen == Table
    ensures r.Success? ==>
      r.value.configure.username == [] && r.value.configure.instanceName == [] && r.value.configure.gamemode == None
    ensures r.Success? ==>
      r.value.configure.isMultiplayer == s.configure.isMultiplayer && r.value.configure.gamemodeRaw == s.configure.gamemodeRaw
  {
    match instruction
    case Configure(_) =>  // the configure screen's only instruction, Submit
      match s.configure.gamemode
      case None => Failure(NOT_INITIALIZED)
      case Some(gamemode) =>
        var bot := NewBot(s.configure.username, s.configure.instanceName, gamemode);
        var form := s.configure.(username := [], instanceName := [], gamemode := None);
        Success(AppState(s.bots + [bot], Table, form))
  }

  /**
   * `Application::update`: "Exit" asks to exit; a screen change only switches the
   * screen; a configure message goes to the form, and the instruction the form
   * reports, if any, is performed.
   */
  function UpdateStep(s: AppState, message: Message): (r: Result<(AppState, Task<Message>), string>)
    ensures message.Exit? ==> r == Success((s, Task.Exit))
    ensures message.Screen? ==> r == Success((s.(screen := message.screen), NoTask()))
    ensures message.Configure? && !message.message.Submit? ==>
      r == Success((s.(configure := ConfigureScreen.Transition(s.configure, message.message).0), NoTask()))
    ensures message.Configure? && message.message.Submit? ==>
      && (r.Failure? <==> s.configure.gamemode.None?)
      && (r.Failure? ==> r.error == NOT_INITIALIZED)
      && (r.Success? ==> r.value == (PerformStep(s, Instruction.Configure(ConfigureScreen.Instruction.Submit)).value, NoTask()))
    ensures message.Configure? && r.Success? ==> r.value.1 == NoTask()
  {
    match message
    case Exit => Success((s, Task.Exit))
    case Screen(screen) => Success((s.(screen := screen), NoTask()))
    case Configure(m) =>
      var (form, action) := ConfigureScreen.Transition(s.configure, m);
      var s' := s.(configure := form);
      var task := MapTask(action.task, (m': ConfigureScreen.Message) => Message.Configure(m'));
      match action.instruction
      case None => Success((s', task))
      case Some(instruction) =>
        match PerformStep(s', Instruction.Configure(instruction))
        case Failure(e) => Failure(e)
        case Success(s'') => Success((s'', task))
  }

  /** Every bot is offline and has no game information. */
  predicate AllOffline(bots: seq<Bot>) {
    forall i :: 0 <= i < |bots| ==> bots[i].status == Offline && bots[i].gameInfomation.None?
  }

  /** The state after a series of updates, or the abort that ends it. */
  function Run(s: AppState, messages: seq<Message>): Result<AppState, string>
    decreases |messages|
  {
    if messages == [] then Success(s)
    else
      match UpdateStep(s, messages[0])
      case Failure(e) => Failure(e)
      case Success((s', _)) => Run(s', messages[1..])
  }

  /** How many messages submit the configure form. */
  function Submits(messages: seq<Message>): nat {
    if messages == [] then 0
    else (if messages[0] == Message.Configure(ConfigureScreen.Message.Submit) then 1 else 0) + Submits(messages[1..])
  }

  /**
   * Over any run, the registry only grows at its end, by one offline bot per
   * submission: earlier bots keep their positions and values, so the registry
   * is in submission order.
   */
  lemma {:induction false} RunAppendsSubmissions(s: AppState, messages: seq<Message>)
    requires Run(s, messages).Success?
    ensures var t := Run(s, messages).value;
      && |t.bots| == |s.bots| + Submits(messages)
      && t.bots[..|s.bots|] == s.bots
      && (AllOffline(s.bots) ==> AllOffline(t.bots))
    decreases |messages|
  {
    if messages != [] {
      var m := messages[0];
      var (s', _) := UpdateStep(s, m).value;
      RunAppendsSubmissions(s', messages[1..]);
      var t := Run(s, messages).value;
      if m == Message.Configure(ConfigureScreen.Message.Submit) {
        assert |s'.bots| == |s.bots| + 1 && s'.bots[..|s.bots|] == s.bots;
        assert t.bots[..|s'.bots|][..|s.bots|] == t.bots[..|s.bots|];
      } else {
        if m.Configure? {
          assert !m.message.Submit?;
        }
        assert s'.bots == s.bots;
      }
    }
  }

  /** The application object: the registry and the screen it updates in place, and the form it owns. */
  class Application {
    var bots: seq<Bot>
    var screen: Screen
    const configure: ConfigureScreen.Configure

    ghost function State(): AppState
      reads this, configure
    {
      AppState(bots, screen, configure.State())
    }

    /** `Application::new()`. */
    constructor New()
      ensures State() == InitialState()
    {
      bots := [];
      screen := Screen.Configure;
      configure := new ConfigureScreen.Configure();
    }

    /** The derived `Default` of `Application`. */
    constructor Default()
      ensures State() == DefaultState()
    {
      bots := [];
      screen := DefaultScreen();
      configure := new ConfigureScreen.Configure();
    }

    method Update(message: Message) returns (result: Result<Task<Message>, string>)
      modifies this, configure
      ensures UpdateStep(old(State()), message).Success? ==>
        result == Success(UpdateStep(old(State()), message).value.1) && State() == UpdateStep(old(State()), message).value.0
      ensures UpdateStep(old(State()), message).Failure? ==>
        result == Failure(UpdateStep(old(State()), message).error) && State() == old(State())
    {
      match message {
        case Exit =>
          return Success(Task.Exit);
        case Screen(newScreen) =>
          screen := newScreen;
          return Success(NoTask());
        case Configure(m) =>
          var action := configure.Update(m);
          if action.instruction.Some? {
            var outcome := Perform(Instruction.Configure(action.instruction.value));
            if outcome.Failure? {
              return Failure(outcome.error);
            }
          }
          return Success(MapTask(action.task, (m': ConfigureScreen.Message) => Message.Configure(m')));
      }
    }

    method Perform(instruction: Instruction) returns (outcome: Result<(), string>)
      modifies this, configure
      ensures PerformStep(old(State()), instruction).Success? ==>
        outcome.Success? && State() == PerformStep(old(State()), instruction).value
      ensures PerformStep(old(State()), instruction).Failure? ==>
        outcome == Failure(NOT_INITIALIZED) && State() == old(State())
    {
      match instruction {
        case Configure(_) =>  // the configure screen's only instruction, Submit
          if configure.gamemode.None? {
            return Failure(NOT_INITIALIZED);
          }
          var username := configure.username;
          configure.username := [];
          var instanceName := configure.instanceName;
          configure.instanceName := [];
          var gamemode := configure.gamemode.value;
          configure.gamemode := None;

          var bot := NewBot(username, instanceName, gamemode);
          bots := bots + [bot];

          screen := Table;
          return Success(());
      }
    }
  }

  /**
   * Filling in the form for an instance with an IPv4 server address and
   * submitting registers one offline bot whose command line joins that server
   * on the default port.
   */
  lemma SubmitThenLaunchServer(instance: string, addr: Ipv4Addr)
    ensures var r := Run(InitialState(), [
        Message.Configure(ConfigureScreen.InstanceNameChange(instance)),
        Message.Configure(ConfigureScreen.GamemodeChange(Ipv4ToString(addr))),
        Message.Configure(ConfigureScreen.Message.Submit)]);
      && r.Success? && |r.value.bots| == 1 && r.value.bots[0].status == Offline
      && r.value.screen == Table
      && LaunchArgs(LaunchParameters(r.value.bots[0].instance, Some(r.value.bots[0].server), None))
         == ["--launch", instance, "--server", Ipv4ToString(addr) + ":" + "25565"]
  {
    var server := MultiPlayer(Address(Ipv4(addr), DEFAULT_PORT));
    ConfigureScreen.ResolveIpv4Text(addr);
    SubmitForm(instance, Ipv4ToString(addr), server);
    ServerArgs(instance, addr);
  }

  /**
   * From the initial state, naming the instance, entering a connection text and
   * submitting registers exactly one bot, for that instance and the game mode
   * the text resolves to, and shows the table.
   */
  lemma SubmitForm(instance: string, text: string, server: GameMode)
    requires ConfigureScreen.Resolve(true, text) == server
    ensures var r := Run(InitialState(), [
        Message.Configure(ConfigureScreen.InstanceNameChange(instance)),
        Message.Configure(ConfigureScreen.GamemodeChange(text)),
        Message.Configure(ConfigureScreen.Message.Submit)]);
      && r.Success? && r.value.bots == [NewBot([], instance, server)] && r.value.screen == Table
  {
    var s0 := InitialState();
    var s1 := s0.(configure := s0.configure.(instanceName := instance));
    var s2 := s1.(configure := s1.configure.(gamemodeRaw := text, gamemode := Some(server)));
    var s3 := AppState([NewBot([], instance, server)], Table, s2.configure.(instanceName := [], gamemode := None));
    RunThree(s0, Message.Configure(ConfigureScreen.InstanceNameChange(instance)),
      Message.Configure(ConfigureScreen.GamemodeChange(text)),
      Message.Configure(ConfigureScreen.Message.Submit), s1, s2, s3);
  }

  /** Three updates in a row that each succeed give the last state. */
  lemma RunThree(s0: AppState, m1: Message, m2: Message, m3: Message, s1: AppState, s2: AppState, s3: AppState)
    requires UpdateStep(s0, m1).Success? && UpdateStep(s0, m1).value.0 == s1
    requires UpdateStep(s1, m2).Success? && UpdateStep(s1, m2).value.0 == s2
    requires UpdateStep(s2, m3).Success? && UpdateStep(s2, m3).value.0 == s3
    ensures Run(s0, [m1, m2, m3]) == Success(s3)
  {
    assert Run(s3, []) == Success(s3);
    assert [m3][1..] == [] && Run(s2, [m3]) == Success(s3);
    assert [m2, m3][1..] == [m3] && Run(s1, [m2, m3]) == Success(s3);
    assert [m1, m2, m3][1..] == [m2, m3];
  }

  /** The command line that joins an IPv4 server on the default port. */
  lemma ServerArgs(instance: string, addr: Ipv4Addr)
    ensures LaunchArgs(LaunchParameters(instance, Some(MultiPlayer(Address(Ipv4(addr), DEFAULT_PORT))), None))
      == ["--launch", instance, "--server", Ipv4ToString(addr) + ":" + "25565"]
  {
    var address := Address(Ipv4(addr), DEFAULT_PORT);
    var text := Ipv4ToString(addr) + ":" + "25565";
    assert AddressToString(address) == text by {
      DefaultPortText();
    }
    assert GameModeArgs(Some(MultiPlayer(address))) == ["--server", text];
    assert ProfileArgs(None) == [];
  }
}
