# Minecraft bot manager: bot creation and launcher command lines

This project models the decision logic of the Minecraft bot manager in Dafny and
proves properties of it. The logic is the pipeline that creates a bot and turns
it into the PrismLauncher command line:

- **The configure form** (`ConfigureScreen`, configure.dfy). The class
  `Configure` holds the form's fields and updates them one message at a time.
  When the connection text changes, it is classified into a `GameMode`:
  - in single-player mode the text is a world name;
  - in multiplayer mode it is an IPv4 literal, else an IPv6 literal, else a DNS
    name taken verbatim;
  - the port is always the default, 25565.

  "Submit" only reports an instruction.
- **The application** (`BotManager`, bot_manager.dfy). The class `Application`
  holds the registry of bots, the screen selector and the form. It routes form
  messages and carries out "Submit":
  - it moves username, instance name and game mode out of the form;
  - it appends a new offline bot;
  - it shows the table.

  The functions `UpdateStep`, `PerformStep` and `Run` specify these steps on
  values, and the class's methods are proved against them.
- **The `prismlauncher` crate** (`PrismLauncher`, prismlauncher.dfy):
  - host names, addresses and game modes, and their text forms;
  - `Address::default()`;
  - the argument vector `launch` builds (method `Launch`, specified by
    `LaunchArgs`);
  - the post-processing of the launcher's output by `version` and
    `list_accounts`.
- **The IP address types of Rust's `std::net`** (`Net`, net.dfy). The form
  relies on these, so they are written out in full:
  - the parser (`str::parse` for `IpAddr`, `Ipv4Addr` and `Ipv6Addr`, following
    the text forms of section 2.2 of RFC 4291);
  - the `Display` forms (the canonical IPv6 text of section 4 of RFC 5952,
    with IPv4-mapped addresses written "::ffff:a.b.c.d").

  `IpText` (ip_text.dfy) proves that every address's text parses back to that
  address. `Text` (text.dfy) holds digit reading and decimal/hex rendering.
- **The screen-to-application channel** (`Actions`, action.dfy). `Action` and
  iced's `Task` are kept minimal: an optional instruction, and a batch of
  follow-up messages or an exit request.

When no game mode has been derived, the source aborts on "Submit" with
`expect("Not initialized")`. Here that abort is the outcome
`Failure("Not initialized")`, and the state is left as it was.

## Model

| member | source | states |
|---|---|---|
| ConfigureScreen.Resolve | application-rust/src/screen/configure.rs:46-69 | Single-player text becomes the world name. In multiplayer mode the host is the IPv4 address when the whole text parses as one; otherwise the IPv6 address when it parses as one; otherwise `Dns` of the text verbatim. The port is 25565 in every multiplayer case. |
| ConfigureScreen.ResolveDnsOnlyForNonIp | application-rust/src/screen/configure.rs:47-63 | The DNS fallback is chosen if and only if the text is not an IP literal. |
| ConfigureScreen.ResolveHostTextRoundTrip | application-rust/src/screen/configure.rs:46-64 | Writing out the host of any classified text and classifying that again gives the same game mode. This holds for every DNS, IPv4 and IPv6 host. |
| ConfigureScreen.ResolveIpv4Text | application-rust/src/screen/configure.rs:47-52 | The text of every IPv4 address is classified as that address on port 25565. |
| ConfigureScreen.ResolveIpv6Text | application-rust/src/screen/configure.rs:53-56 | The text of every IPv6 address is classified as that address on port 25565, not as IPv4 and not as DNS. |
| ConfigureScreen.Transition | application-rust/src/screen/configure.rs:38-75 | Each message overwrites only its own field. A text change also sets the game mode to `Some` of the classification under the current mode flag; every other field is kept. Only "Submit" yields an instruction (`Submit`), and every follow-up task is empty. |
| ConfigureScreen.ToggleKeepsGamemode | application-rust/src/screen/configure.rs:42 | Switching the mode flag keeps both the game mode derived earlier and the raw text. |
| ConfigureScreen.GamemodeStaysDerived | application-rust/src/screen/configure.rs:43-70 | After any series of messages that includes a text change, or that starts from a form holding a game mode, the form holds a game mode. |
| ConfigureScreen.DefaultDraft | application-rust/src/screen/configure.rs:115-124 | The default form has empty username, instance name and raw text, multiplayer on, and no game mode. |
| ConfigureScreen.Configure.constructor | application-rust/src/screen/configure.rs:115-125 | The new form has empty username, instance name and raw text, multiplayer on, and no game mode. |
| ConfigureScreen.Configure.Update | application-rust/src/screen/configure.rs:38-75 | The in-place update leaves exactly the fields, and returns exactly the action, that `Transition` gives for the old fields. |
| Actions.MapTask | application-rust/src/main.rs:146 | Mapping a task keeps an exit as an exit. It wraps every follow-up message with the function, keeping number and order. |
| BotManager.DefaultScreen | application-rust/src/main.rs:29-36 | The default screen is the table. |
| BotManager.DefaultStatus | application-rust/src/main.rs:95-100 | The default status is the least one: it compares greater than no status. |
| BotManager.StatusCmp | application-rust/src/main.rs:95-100 | The derived comparison follows declaration order: `Less` exactly for `Offline` against `Online`, `Greater` exactly for the reverse, and `Equal` exactly for equal values. |
| BotManager.NewBot | application-rust/src/main.rs:81-91 | A new bot is offline with no game information, and keeps the username, instance and server as given. |
| BotManager.StatusOrder | application-rust/src/main.rs:95-100 | `Offline < Online`. The derived comparison is antisymmetric and transitive, is `Equal` exactly on equal values, and the default status is the least. |
| BotManager.StatusToString | application-rust/src/main.rs:102-113 | The text of `Offline` is "Offline" and that of `Online` is "Online". |
| BotManager.PerformStep | application-rust/src/main.rs:156-171 | "Submit" fails with "Not initialized" exactly when the form has no game mode. Otherwise it appends exactly one bot, built by `NewBot` from the form's values before the take, and keeps the earlier bots in place. It then shows the table, empties username, instance name and game mode, and keeps the mode flag and the raw text. |
| BotManager.UpdateStep | application-rust/src/main.rs:133-153 | "Exit" asks to exit and changes nothing. A screen message sets only the screen. A form message other than "Submit" only replaces the form by the one the form's transition gives. "Submit" fails with "Not initialized" exactly when the form holds no game mode; otherwise the state is the one `PerformStep` gives. A form message never yields a follow-up task. |
| BotManager.RunAppendsSubmissions | application-rust/src/main.rs:166-167 | Over any successful run of messages, the registry grows by one bot per "Submit" and earlier bots keep their positions and values (submission order). If all bots were offline, all still are. |
| BotManager.RunThree | application-rust/src/main.rs:133-153 | Three updates in a row that each succeed leave the state the last one gives. |
| BotManager.SubmitForm | application-rust/src/main.rs:140-169 | From the start state, naming an instance, entering a connection text and submitting registers exactly one bot for that instance and the classified game mode, and shows the table. |
| BotManager.ServerArgs | crates/prismlauncher/src/lib.rs:99-102 | The command line for an IPv4 server is "--launch", the instance, "--server", and the address text followed by ":25565". |
| BotManager.SubmitThenLaunchServer | application-rust/src/main.rs:156-170 | Submitting a form filled with an instance and any IPv4 address text yields one offline bot and the table. That bot's launch arguments join that address on port 25565. |
| BotManager.Application.New | application-rust/src/main.rs:125-131 | The new application has no bots, shows the configure screen and holds a default form. |
| BotManager.Application.Default | application-rust/src/main.rs:13-19 | The derived default application has no bots, shows the table (the default `Screen`, main.rs:33-35) and holds a default form. |
| BotManager.Application.Update | application-rust/src/main.rs:133-153 | The in-place update returns the task and leaves the state that `UpdateStep` gives. When "Submit" fails, it returns the failure and changes nothing. |
| BotManager.Application.Perform | application-rust/src/main.rs:156-174 | The in-place "Submit" leaves the state `PerformStep` gives. Without a game mode it reports "Not initialized" and changes nothing. |
| PrismLauncher.DefaultAddress | crates/prismlauncher/src/lib.rs:51-58 | The default address is `Dns("localhost")` on port 25565. |
| PrismLauncher.DefaultAddressText | crates/prismlauncher/src/lib.rs:51-64 | The default address is written "localhost:25565". |
| PrismLauncher.HostnameTextParses | crates/prismlauncher/src/lib.rs:25-37 | A DNS name is written as given. An IPv4 host is written as text that parses back to that address. An IPv6 host is written as text that parses back to that address and never as IPv4. |
| PrismLauncher.AddressToString | crates/prismlauncher/src/lib.rs:60-64 | Splitting an address's text at its last ':' gives back the host's text and the port, for every host kind. |
| PrismLauncher.HostPortRoundTrip | crates/prismlauncher/src/lib.rs:62 | Any host text followed by ':' and a port in decimal splits at the last ':' into that host text and that port. |
| PrismLauncher.LaunchArgs | crates/prismlauncher/src/lib.rs:86-110 | The arguments start with "--launch" and the instance id. A single-player mode adds exactly "--world" and the world name. A multiplayer mode adds exactly "--server" and "host:port". A profile adds "--profile" and the name last. The count is 2 + 2·[mode] + 2·[profile], and with neither the list is exactly the first pair. |
| PrismLauncher.Launch | crates/prismlauncher/src/lib.rs:86-111 | The vector built push by push is the one `LaunchArgs` specifies. |
| PrismLauncher.Find | crates/prismlauncher/src/lib.rs:117 | The search finds the first occurrence of the pattern, or reports that there is none. |
| PrismLauncher.SplitJoinRoundTrip | crates/prismlauncher/src/lib.rs:117 | Splitting loses nothing: the pieces joined with the pattern are the text. |
| PrismLauncher.SplitPiecesFree | crates/prismlauncher/src/lib.rs:117 | No piece of the split contains the pattern. |
| PrismLauncher.SplitConcatRemovesAll | crates/prismlauncher/src/lib.rs:117 | Collecting the pieces is the same as removing every occurrence met by a left-to-right scan. |
| PrismLauncher.Version | crates/prismlauncher/src/lib.rs:115-118 | The version text is the output with every "PrismLauncher " that a left-to-right scan meets removed, and nothing else removed. |
| PrismLauncher.VersionOfBanner | crates/prismlauncher/src/lib.rs:115-118 | The output "PrismLauncher " followed by a version text without that prefix yields the version text. |
| PrismLauncher.FindWhitespace | crates/prismlauncher/src/lib.rs:81 | The first whitespace character is found, with no whitespace before it; if there is none, the text has no whitespace. |
| PrismLauncher.SplitAtWhitespace | crates/prismlauncher/src/lib.rs:81 | No piece contains whitespace, and there is one piece more than the output has whitespace characters. Putting those characters back between the pieces, in order, gives the output again, so the piece boundaries are exactly the whitespace characters. |
| PrismLauncher.ConcatSplitAtWhitespace | crates/prismlauncher/src/lib.rs:80-83 | The pieces together are the output with its whitespace removed. |
| PrismLauncher.NonEmpty | crates/prismlauncher/src/lib.rs:81 | Only non-empty pieces are kept, each one a piece of the input; every non-empty piece of the input is kept; together they hold the same characters in the same order. |
| PrismLauncher.NonEmptySingle | crates/prismlauncher/src/lib.rs:81 | A single piece is kept exactly when it is non-empty. |
| PrismLauncher.NonEmptyFirst | crates/prismlauncher/src/lib.rs:81 | The first piece is kept or dropped on its own, ahead of what is kept from the rest. |
| PrismLauncher.NonEmptyAppend | crates/prismlauncher/src/lib.rs:81 | Keeping the non-empty pieces of a concatenation keeps those of each part, in order; with NonEmptySingle, each non-empty piece is kept exactly once, in its place. |
| PrismLauncher.ListAccounts | crates/prismlauncher/src/lib.rs:78-84 | Every account name is non-empty and free of whitespace. |
| PrismLauncher.ListAccountsKeepsText | crates/prismlauncher/src/lib.rs:78-84 | Together, in order, the account names are all the non-whitespace characters of the output. |
| PrismLauncher.ListAccountsOfLayout | crates/prismlauncher/src/lib.rs:78-84 | Non-empty, whitespace-free names printed with any whitespace between them (at least one character between two names, any amount before the first and after the last) are read back exactly. |
| PrismLauncher.LayoutOfListAccounts | crates/prismlauncher/src/lib.rs:78-84 | Conversely, every output is such a layout of the names read from it: names and whitespace separators together make up the whole output. |
| PrismLauncher.ListAccountsSkipAll | crates/prismlauncher/src/lib.rs:81 | Leading whitespace does not change the names read. |
| PrismLauncher.ListAccountsName | crates/prismlauncher/src/lib.rs:81 | A name that ends the output or is followed by whitespace is read as the next name. |
| Net.ParseIpAddrPrecedence | application-rust/src/screen/configure.rs:47 | Parsing an `IpAddr` gives IPv4 exactly when the whole text is an IPv4 address. It gives IPv6 exactly when the text is an IPv6 address and not an IPv4 one, and fails when it is neither. |
| Net.Ipv4PrefixBlocksIpv6 | application-rust/src/screen/configure.rs:47 | Text that begins with an IPv4 address is never an IPv6 address. |
| Net.LongestZeroRun | crates/prismlauncher/src/lib.rs:33 | The run that the IPv6 text compresses to "::" lies within the address and covers only zero segments. No zero run is longer, and none of equal length starts earlier (section 4.2.3 of RFC 5952). |
| Text.ToRadix | crates/prismlauncher/src/lib.rs:62 | A number's decimal or hex text is non-empty, all digits, without a leading zero, in lower case, and contains no ':' or '.'. |
| Text.ValueOfToRadix | crates/prismlauncher/src/lib.rs:62 | Reading back the digits of a number's text gives the number. |
| IpText.Ipv4RoundTrip | crates/prismlauncher/src/lib.rs:32 | Parsing the text of any IPv4 address gives that address. |
| IpText.Ipv6RoundTrip | crates/prismlauncher/src/lib.rs:33 | Parsing the text of any IPv6 address gives that address, and the text never parses as IPv4. |
| IpText.MappedRoundTrip | crates/prismlauncher/src/lib.rs:33 | The "::ffff:a.b.c.d" text of an IPv4-mapped address reads back as that address. |
| IpText.CompressedRoundTrip | crates/prismlauncher/src/lib.rs:33 | The text with the longest zero run written "::" reads back as the address. |
| IpText.PlainRoundTrip | crates/prismlauncher/src/lib.rs:33 | The text of eight groups without "::" reads back as the address. |
| IpText.GappedRoundTrip | crates/prismlauncher/src/lib.rs:33 | Any text of groups, "::" and groups, with fewer than seven groups in all, reads back as the address with zeros filling the gap. |

## Left out

- Running the launcher (`execute`: locating the executable, running it, decoding its output as UTF-8, and the `expect` aborts in each): this is I/O on an external program. `Launch` stops at the argument vector. `Version` and `ListAccounts` start from the captured standard output, given as a parameter.
- `data_directory`: it only passes the launcher's output through.
- Rendering (`view` in main.rs and configure.rs, iced's `Element` and `exit`). iced's `Task` is kept opaque, as a batch of messages or an exit request.
- The table screen: its message and instruction types have no values. So `Message::Table` and `Instruction::Table` are absent, and the unreachable `todo!()` in `perform` is not modelled.
- `crate::action` is not part of this model. `Action` is modelled minimally, as an optional instruction and a task, with `new` and `none`.
- `tracing::trace!` logging in the DNS fallback.
- `GameInfomation`, `Coordinates` and `Dimension` are declared, but no bot ever holds game information.
- The panic on "Submit" without a game mode is modelled as a failure outcome that changes nothing. The source takes username and instance name before it aborts, but the aborted process has no observable state afterwards.
- The launcher's `--server` value for an IPv6 host is written as the source writes it, "host:port" without brackets. How the launcher reads that value back is outside the model.
- Formatter width and precision options of `Display` (unused by the source).
- `Address.port` is a `u16`; port text is the plain decimal rendering.
