/**
 * The command methods of WslService: the wsl.exe argument string each one
 * builds, and how each turns the outcome of the process into its result.
 * Running the process is not modelled; its outcome is an input value.
 */
module WslCommands {
  import opened Options
  import opened Seqs
  import opened Text
  import opened Int32Parse
  import opened Sanitizer
  import opened Distributions
  import opened CommandLine
  import opened PackageManagers
  import Listing

  /** One invocation of wsl.exe. */
  datatype Command =
    | ListVerbose
    | ListOnline
    | Start(name: string)
    | Terminate(name: string)
    | SetDefault(name: string)
    | Info(name: string)
    | UpdateWsl
    | SetVersion(name: string, version: int)
    | Export(name: string, path: string)
    | Import(name: string, location: string, path: string)
    | Unregister(name: string)
    | Shutdown
    | Install(distro: string)
    | OsRelease(name: string)
    | UpdatePackages(name: string, manager: PackageManager)

  /** What running wsl.exe came to: an exception while starting, reading or
      waiting, or an exit, with the chunks successive reads of standard
      output returned and the exit code. */
  datatype Outcome = Threw | Exited(chunks: seq<seq<byte>>, exitCode: int)

  /** The words of the argument string each method interpolates, in order,
      and which of them it writes between double quotes: "-d {name} --exec
      echo 'Started'" for Start, "--export {name} \"{path}\"" for Export,
      and so on. */
  function Words(c: Command): (ws: seq<Arg>)
    ensures |ws| > 0
  {
    match c
    case ListVerbose => [Bare("--list"), Bare("--verbose")]
    case ListOnline => [Bare("--list"), Bare("--online")]
    case Start(n) => [Bare("-d"), Bare(n), Bare("--exec"), Bare("echo"), Bare("'Started'")]
    case Terminate(n) => [Bare("--terminate"), Bare(n)]
    case SetDefault(n) => [Bare("--set-default"), Bare(n)]
    case Info(n) => [Bare("-d"), Bare(n), Bare("uname"), Bare("-a")]
    case UpdateWsl => [Bare("--update")]
    case SetVersion(n, v) => [Bare("--set-version"), Bare(n), Bare(ShowInt(v))]
    case Export(n, p) => [Bare("--export"), Bare(n), Quoted(p)]
    case Import(n, l, p) => [Bare("--import"), Bare(n), Quoted(l), Quoted(p)]
    case Unregister(n) => [Bare("--unregister"), Quoted(n)]
    case Shutdown => [Bare("--shutdown")]
    case Install(d) => [Bare("--install"), Bare("-d"), Bare(d)]
    case OsRelease(n) => [Bare("-d"), Bare(n), Bare("cat"), Bare("/etc/os-release")]
    case UpdatePackages(n, m) => [Bare("-d"), Quoted(n), Bare("bash"), Bare("-c"), Quoted(UpdateCommand(m))]
  }

  /** ProcessStartInfo.Arguments: the words joined by single spaces. */
  function Arguments(c: Command): string {
    Join(Words(c))
  }

  /** A distribution name that survives being written bare: non-empty, no
      white space, no double quote. */
  predicate PlainWord(s: string) {
    Intact(Bare(s))
  }

  /** A path that survives being written between quotes. */
  predicate PlainPath(s: string) {
    Intact(Quoted(s))
  }

  /** The condition under which each command's fields come back intact. */
  predicate WellFormed(c: Command) {
    match c
    case Start(n) => PlainWord(n)
    case Terminate(n) => PlainWord(n)
    case SetDefault(n) => PlainWord(n)
    case Info(n) => PlainWord(n)
    case SetVersion(n, _) => PlainWord(n)
    case Export(n, p) => PlainWord(n) && PlainPath(p)
    case Import(n, l, p) => PlainWord(n) && PlainPath(l) && PlainPath(p)
    case Unregister(n) => PlainPath(n)
    case Install(d) => PlainWord(d)
    case OsRelease(n) => PlainWord(n)
    case UpdatePackages(n, _) => PlainPath(n)
    case _ => true
  }

  /** A rendered integer is a bare word. */
  lemma ShowIntPlain(v: int)
    ensures PlainWord(ShowInt(v))
  {
    ShowIntChars(v);
  }

  /** No update command holds a double quote or ends in a backslash. */
  lemma UpdateCommandPlain(m: PackageManager)
    ensures PlainPath(UpdateCommand(m))
  {
    match m
    case Apt => AptCommandPlain();
    case Apk => ApkCommandPlain();
    case Pacman => PacmanCommandPlain();
    case Zypper => ZypperCommandPlain();
    case DnfOrYum => DnfCommandPlain();
  }

  lemma AptCommandPlain()
    ensures PlainPath(UpdateCommand(Apt))
  {
  }

  lemma ApkCommandPlain()
    ensures PlainPath(UpdateCommand(Apk))
  {
  }

  lemma PacmanCommandPlain()
    ensures PlainPath(UpdateCommand(Pacman))
  {
  }

  lemma ZypperCommandPlain()
    ensures PlainPath(UpdateCommand(Zypper))
  {
  }

  lemma DnfCommandPlain()
    ensures PlainPath(UpdateCommand(DnfOrYum))
  {
  }

  /** The fixed words of the commands are plain words. */
  lemma ListWordsPlain()
    ensures PlainWord("--list") && PlainWord("--verbose") && PlainWord("--online")
  {
  }

  lemma StartWordsPlain()
    ensures PlainWord("-d") && PlainWord("--exec") && PlainWord("echo") && PlainWord("'Started'")
  {
  }

  lemma NameWordsPlain()
    ensures PlainWord("--terminate") && PlainWord("--set-default") && PlainWord("--unregister")
  {
  }

  lemma InfoWordsPlain()
    ensures PlainWord("uname") && PlainWord("-a") && PlainWord("cat") && PlainWord("/etc/os-release")
  {
  }

  lemma UpdateWordsPlain()
    ensures PlainWord("--update") && PlainWord("--set-version") && PlainWord("bash") && PlainWord("-c")
  {
  }

  lemma TransferWordsPlain()
    ensures PlainWord("--export") && PlainWord("--import") && PlainWord("--shutdown") && PlainWord("--install")
  {
  }

  /** The fixed words of every command are intact, and the variable ones
      are when the command is well formed. */
  lemma WordsIntact(c: Command)
    requires WellFormed(c)
    ensures forall i :: 0 <= i < |Words(c)| ==> Intact(Words(c)[i])
  {
    if Reads(c) {
      ReadWordsIntact(c);
    } else if ActsOnOne(c) {
      OneNameWordsIntact(c);
    } else {
      ChangeWordsIntact(c);
    }
  }

  /** The commands that only read: listings, start, info and os-release. */
  predicate Reads(c: Command) {
    c.ListVerbose? || c.ListOnline? || c.Start? || c.Info? || c.OsRelease?
  }

  /** The commands that act on one named distribution. */
  predicate ActsOnOne(c: Command) {
    c.Terminate? || c.SetDefault? || c.Unregister? || c.SetVersion?
  }

  lemma ReadWordsIntact(c: Command)
    requires WellFormed(c) && Reads(c)
    ensures forall i :: 0 <= i < |Words(c)| ==> Intact(Words(c)[i])
  {
    ListWordsPlain();
    StartWordsPlain();
    InfoWordsPlain();
  }

  lemma OneNameWordsIntact(c: Command)
    requires WellFormed(c) && ActsOnOne(c)
    ensures forall i :: 0 <= i < |Words(c)| ==> Intact(Words(c)[i])
  {
    NameWordsPlain();
    if c.SetVersion? {
      UpdateWordsPlain();
      ShowIntPlain(c.version);
    }
  }

  lemma ChangeWordsIntact(c: Command)
    requires WellFormed(c) && !Reads(c) && !ActsOnOne(c)
    ensures forall i :: 0 <= i < |Words(c)| ==> Intact(Words(c)[i])
  {
    TransferWordsPlain();
    match c
    case UpdatePackages(_, m) => StartWordsPlain(); UpdateWordsPlain(); UpdateCommandPlain(m);
    case Install(_) => StartWordsPlain();
    case UpdateWsl => UpdateWordsPlain();
    case _ =>
  }

  /** wsl.exe receives exactly the intended arguments of a well-formed
      command: the name, paths and version each arrive as one argument,
      unaltered. */
  lemma ArgumentsRoundTrip(c: Command)
    requires WellFormed(c)
    ensures SplitArguments(Arguments(c)) == Texts(Words(c))
  {
    WordsIntact(c);
    JoinRoundTrip(Words(c));
  }

  /** The text ExecuteWslCommandAsync returns for the chunks the reads
      produced: received bytes with every 0x00 removed, decoded. */
  function Output(chunks: seq<seq<byte>>): (text: string)
    ensures forall i :: 0 <= i < |text| ==> text[i] != '\0'
  {
    Decode(StripNul(Concat(Received(chunks))))
  }

  /** Characters the model encodes: ASCII other than NUL. */
  predicate Ascii(text: string) {
    forall i :: 0 <= i < |text| ==> 0 < text[i] as int < 0x80
  }

  /** UTF-16 little-endian encoding of ASCII text, the form in which
      wsl.exe writes its listings: each character is its code followed by a
      zero byte. */
  function Utf16(text: string): (bytes: seq<byte>)
    requires Ascii(text)
    ensures |bytes| == 2 * |text|
  {
    if |text| == 0 then [] else [AsciiByte(text[0]), 0] + Utf16(text[1..])
  }

  lemma {:induction false} StripNulUtf16(text: string)
    requires Ascii(text)
    ensures Decode(StripNul(Utf16(text))) == text
    decreases |text|
  {
    if |text| > 0 {
      var c := AsciiByte(text[0]);
      var rest := StripNul(Utf16(text[1..]));
      assert StripNul(Utf16(text)) == [c] + rest by {
        StripNulAppend([c, 0], Utf16(text[1..]));
        assert StripNul([c, 0]) == [c] by {
          StripNulAppend([c], [0]);
          StripNulSingle(c);
          StripNulSingle(0);
          assert [c] + [0] == [c, 0];
        }
      }
      assert Decode([c] + rest) == [text[0]] + text[1..] by {
        DecodeAppend([c], rest);
        StripNulUtf16(text[1..]);
        DecodeAsciiByte(text[0]);
      }
      assert [text[0]] + text[1..] == text;
    }
  }

  /** Filtering NUL bytes undoes the UTF-16 encoding of ASCII text, however
      the bytes were cut into reads. */
  lemma OutputOfUtf16(text: string, chunks: seq<seq<byte>>)
    requires Ascii(text)
    requires Concat(Received(chunks)) == Utf16(text)
    ensures Output(chunks) == text
  {
    StripNulUtf16(text);
  }

  /** GetDistributionsAsync: an empty list when the command throws;
      otherwise one record per listing line the row parser accepts. */
  function GetDistributions(r: Outcome): (ds: seq<Distribution>)
    ensures r.Threw? ==> ds == []
    ensures r.Exited? ==> |ds| <= |Split(Output(r.chunks), Listing.LineBreaks)|
  {
    match r
    case Threw => []
    case Exited(chunks, _) => Listing.ParseListing(Output(chunks))
  }

  /** End to end: the records wsl.exe prints, in UTF-16, cut into reads
      in any way, with any exit code, are the records the service returns. */
  lemma GetDistributionsRoundTrip(ds: seq<Distribution>, chunks: seq<seq<byte>>, exitCode: int)
    requires forall k :: 0 <= k < |ds| ==> Listing.Printable(ds[k])
    requires Ascii(Listing.PrintListing(ds))
    requires Concat(Received(chunks)) == Utf16(Listing.PrintListing(ds))
    ensures GetDistributions(Exited(chunks, exitCode)) == ds
  {
    OutputOfUtf16(Listing.PrintListing(ds), chunks);
    Listing.ListingRoundTrip(ds);
  }

  /** GetAvailableDistributionsAsync: no names when the command throws;
      otherwise the names of the parser as written, which takes the first
      non-empty line for the column titles. */
  function GetAvailableDistributions(r: Outcome): (names: seq<string>)
    ensures r.Threw? ==> names == []
    ensures forall k :: 0 <= k < |names| ==> Listing.Name(names[k])
  {
    match r
    case Threw => []
    case Exited(chunks, _) =>
      Listing.ParsedNamesWords(Output(chunks));
      Listing.ParseOnlineList(Output(chunks))
  }

  /** The same method with the column-title line located before names are
      taken (see Listing.ParseOnlineListCorrected). */
  function GetAvailableDistributionsCorrected(r: Outcome): (names: seq<string>)
    ensures r.Threw? ==> names == []
    ensures forall k :: 0 <= k < |names| ==> Listing.Name(names[k])
  {
    match r
    case Threw => []
    case Exited(chunks, _) =>
      Listing.ParsedNamesWords(Output(chunks));
      Listing.ParseOnlineListCorrected(Output(chunks))
  }

  /** End to end on the catalogue the tool really prints, in UTF-16 and cut
      into reads in any way: the method as written reports "Install" ahead
      of the real names, the corrected one only the real names. */
  lemma AvailableOnRealCatalog(intro: string, es: seq<Listing.CatalogEntry>, chunks: seq<seq<byte>>, exitCode: int)
    requires Listing.IntroLine(intro)
    requires forall k :: 0 <= k < |es| ==> Listing.ValidEntry(es[k])
    requires Ascii(Listing.RealCatalogOutput(intro, es))
    requires Concat(Received(chunks)) == Utf16(Listing.RealCatalogOutput(intro, es))
    ensures GetAvailableDistributions(Exited(chunks, exitCode)) == ["Install"] + Listing.EntryNames(es)
    ensures GetAvailableDistributionsCorrected(Exited(chunks, exitCode)) == Listing.EntryNames(es)
  {
    OutputOfUtf16(Listing.RealCatalogOutput(intro, es), chunks);
    Listing.OnlineListInstallLeak(intro, es);
    Listing.OnlineListCorrectedReal(intro, es);
  }

  const InfoUnavailable: string := "Informations non disponibles"

  /** GetDistributionInfoAsync: the output with the white space at both
      ends cut off, or a fixed message when the command throws. */
  function GetDistributionInfo(r: Outcome): (info: string)
    ensures r.Threw? ==> info == InfoUnavailable
    ensures r.Exited? ==> exists w1, w2 :: Output(r.chunks) == w1 + info + w2 && AllWhiteSpace(w1) && AllWhiteSpace(w2)
    ensures r.Exited? ==> info == [] || (!IsWhiteSpace(info[0]) && !IsWhiteSpace(info[|info| - 1]))
    ensures r.Exited? ==> (info == [] <==> AllWhiteSpace(Output(r.chunks)))
    ensures r.Exited? ==> forall i :: 0 <= i < |info| ==> info[i] != '\0'
  {
    match r
    case Threw => InfoUnavailable
    case Exited(chunks, _) =>
      var text := Output(chunks);
      TrimmedText(text);
      Trim(text)
  }

  /** Trimming a text without NUL gives a middle part of it without NUL,
      between white space. */
  lemma TrimmedText(text: string)
    requires forall i :: 0 <= i < |text| ==> text[i] != '\0'
    ensures forall i :: 0 <= i < |Trim(text)| ==> Trim(text)[i] != '\0'
    ensures exists w1, w2 :: text == w1 + Trim(text) + w2 && AllWhiteSpace(w1) && AllWhiteSpace(w2)
  {
    var t, lead := Trim(text), LeadingWhiteSpace(text);
    var w1, w2 := text[..lead], text[lead + |t|..];
    assert text == w1 + t + w2 && AllWhiteSpace(w1) && AllWhiteSpace(w2) by {
      TrimSplits(text);
    }
    TrimKeepsNoNul(text);
  }

  lemma TrimKeepsNoNul(text: string)
    requires forall i :: 0 <= i < |text| ==> text[i] != '\0'
    ensures forall i :: 0 <= i < |Trim(text)| ==> Trim(text)[i] != '\0'
  {
    var t, lead := Trim(text), LeadingWhiteSpace(text);
    forall i | 0 <= i < |t|
      ensures t[i] != '\0'
    {
      assert t[i] == text[lead + i];
    }
  }

  /** The information shown is determined: whenever the output is some text
      between white space, with no white space at either end of the text,
      that text is what the method returns. */
  lemma InfoIsPaddedText(chunks: seq<seq<byte>>, exitCode: int, w1: string, t: string, w2: string)
    requires Output(chunks) == w1 + t + w2 && AllWhiteSpace(w1) && AllWhiteSpace(w2)
    requires t == [] || (!IsWhiteSpace(t[0]) && !IsWhiteSpace(t[|t| - 1]))
    ensures GetDistributionInfo(Exited(chunks, exitCode)) == t
  {
    TrimPadded(w1, t, w2);
  }

  /** The commands whose method returns `process.ExitCode == 0`. */
  predicate ChecksExitCode(c: Command) {
    c.UpdateWsl? || c.SetVersion? || c.Export? || c.Import? || c.Unregister?
    || c.Shutdown? || c.Install? || c.UpdatePackages?
  }

  /** The commands whose method returns true once the output has been read,
      whatever the exit code. */
  predicate ChecksCompletion(c: Command) {
    c.Start? || c.Terminate? || c.SetDefault?
  }

  /** The boolean a command method returns for the outcome of its process. */
  function Succeeded(c: Command, r: Outcome): (ok: bool)
    requires ChecksExitCode(c) || ChecksCompletion(c)
    ensures ok ==> r.Exited?
    ensures ChecksCompletion(c) ==> (ok <==> r.Exited?)
    ensures ChecksExitCode(c) ==> (ok <==> r.Exited? && r.exitCode == 0)
  {
    match r
    case Threw => false
    case Exited(_, code) => if ChecksExitCode(c) then code == 0 else true
  }

  /** Start, stop and set-default report success for any exit code. */
  lemma CompletionIgnoresExitCode(c: Command, chunks: seq<seq<byte>>, e1: int, e2: int)
    requires ChecksCompletion(c)
    ensures Succeeded(c, Exited(chunks, e1)) && Succeeded(c, Exited(chunks, e2))
  {
  }

  /** The other commands report failure for any non-zero exit code. */
  lemma NonZeroExitFails(c: Command, chunks: seq<seq<byte>>, code: int)
    requires ChecksExitCode(c) && code != 0
    ensures !Succeeded(c, Exited(chunks, code))
  {
  }

  /** How a call to a service method ends: it throws, or it returns. */
  datatype Completion = Raised | Returned(ok: bool)

  /** The try block of a command method: the process call throws, or the
      method returns its verdict on the process's outcome. */
  function Attempt(c: Command, r: Outcome): Completion
    requires ChecksExitCode(c) || ChecksCompletion(c)
  {
    match r
    case Threw => Raised
    case Exited(_, code) => Returned(if ChecksExitCode(c) then code == 0 else true)
  }

  /** `catch { return false; }` around a try block. */
  function CatchAll(body: Completion): (e: Completion)
    ensures e.Returned?
    ensures body.Returned? ==> e == body
    ensures body.Raised? ==> !e.ok
  {
    match body
    case Raised => Returned(false)
    case Returned(_) => body
  }

  /** A command method, seen by its caller, never throws and returns the
      verdict Succeeded gives. */
  lemma CommandNeverRaises(c: Command, r: Outcome)
    requires ChecksExitCode(c) || ChecksCompletion(c)
    ensures CatchAll(Attempt(c, r)) == Returned(Succeeded(c, r))
  {
  }

  /** The try block of RestartDistributionAsync: stop, then start, then
      true; an exception from stop skips start and goes to the catch. */
  function RestartAttempt(stopped: Completion, started: Completion): (e: Completion)
    ensures e.Raised? <==> stopped.Raised? || started.Raised?
  {
    if stopped.Raised? || started.Raised? then Raised else Returned(true)
  }

  /** RestartDistributionAsync: the commands it runs and its result. Start
      and stop catch every exception themselves, so the restart's own catch
      is never reached: both commands always run and the result is true
      whatever either of them returned. */
  function Restart(name: string, stop: Outcome, start: Outcome): (r: (seq<Command>, bool))
    ensures r.0 == [Terminate(name), Start(name)]
    ensures r.1
  {
    var stopped := CatchAll(Attempt(Terminate(name), stop));
    var started := CatchAll(Attempt(Start(name), start));
    var ran := if stopped.Raised? then [Terminate(name)] else [Terminate(name), Start(name)];
    (ran, CatchAll(RestartAttempt(stopped, started)).ok)
  }

  /** Restart's catch gives false exactly when a step raised. */
  lemma RestartCatch(stopped: Completion, started: Completion)
    ensures CatchAll(RestartAttempt(stopped, started)) == Returned(!(stopped.Raised? || started.Raised?))
  {
  }

  /** UpdateDistributionPackagesAsync, first step: the update command to
      run, chosen from the os-release text; none when reading it threw. */
  function UpdatePlan(name: string, osRelease: Outcome): (next: Option<Command>)
    ensures osRelease.Threw? <==> next.None?
    ensures next.Some? ==> next.value.UpdatePackages? && next.value.name == name
  {
    match osRelease
    case Threw => None
    case Exited(chunks, _) => Some(UpdatePackages(name, Detect(Output(chunks))))
  }

  /** The whole method: true exactly when the os-release read completed
      and the update command then exited with 0. */
  function UpdatePackagesResult(name: string, osRelease: Outcome, update: Outcome): (ok: bool)
    ensures ok <==> osRelease.Exited? && update.Exited? && update.exitCode == 0
  {
    match UpdatePlan(name, osRelease)
    case None => false
    case Some(c) => Succeeded(c, update)
  }

  /** The update command run is the one for the first family the
      os-release text mentions, in the source's order, or apt. */
  lemma UpdatePlanFamily(name: string, chunks: seq<seq<byte>>, exitCode: int, m: PackageManager)
    requires UpdatePlan(name, Exited(chunks, exitCode)) == Some(UpdatePackages(name, m))
    ensures Mentions(Output(chunks), m) || (m == Apt && forall other :: !Mentions(Output(chunks), other))
    ensures forall other :: Rank(other) < Rank(m) ==> !Mentions(Output(chunks), other)
  {
  }
}
