/**
 * The rules of the main window's view model: which service method each
 * command calls, what it does to the displayed list, to the IsLoading flag
 * and to the refresh guard, and which kind of notification it raises.
 *
 * Each command runs to completion before the next one starts; the replies
 * of the service (and the folder and clock an export reads) are inputs.
 * The one overlap the code defends against, a second refresh while one is
 * fetching, is modelled through the state a refresh shows while it waits.
 */
module MainViewModel {
  import opened Options
  import opened Distributions

  /** The kind of notification shown; the message texts are left out. */
  datatype Notice = Info | Success | Warning | Error

  /** The service methods the view model calls. */
  datatype Call =
    | GetDistributions
    | StartDistribution(name: string)
    | StopDistribution(name: string)
    | RestartDistribution(name: string)
    | OpenTerminal(name: string)
    | OpenFileExplorer(name: string)
    | SetDefaultDistribution(name: string)
    | GetDistributionInfo(name: string)
    | UpdateWsl
    | ConvertWslVersion(name: string, version: int)
    | ExportDistribution(name: string, path: string)
    | UnregisterDistribution(name: string)
    | ShutdownAll
    | InstallDistribution(name: string)
    | UpdateDistributionPackages(name: string)

  /** The commands bound to the window; `arg` is the distribution the
      command was invoked with, None when it was null. */
  datatype Action =
    | RefreshCommand
    | StartCommand(arg: Option<Distribution>)
    | StopCommand(arg: Option<Distribution>)
    | RestartCommand(arg: Option<Distribution>)
    | OpenTerminalCommand(arg: Option<Distribution>)
    | OpenExplorerCommand(arg: Option<Distribution>)
    | SetDefaultCommand(arg: Option<Distribution>)
    | ShowInfoCommand(arg: Option<Distribution>)
    | UpdateWslCommand
    | ConvertVersionCommand(arg: Option<Distribution>)
    | ExportCommand(arg: Option<Distribution>)
    | DeleteCommand(arg: Option<Distribution>)
    | ShutdownAllCommand
    | InstallDistributionCommand
    | UpdateInstanceCommand(arg: Option<Distribution>)

  /** What the service method returned: it threw, or it returned a flag
      (for the methods without a result, any flag stands for "returned"). */
  datatype Reply = Raised | Returned(ok: bool)

  /** What the outside world answers during one command: the reply of the
      command's own service call, the list a reload fetches (None when
      fetching threw), and for an export the Documents folder and the
      "yyyyMMdd_HHmmss" timestamp of the clock. */
  datatype World = World(reply: Reply, fetched: Option<seq<Distribution>>, documents: string, timestamp: string)

  /** The state of the view model: the displayed list, the IsLoading flag,
      the _isRefreshing guard, and the notifications raised so far. */
  datatype Screen = Screen(distributions: seq<Distribution>, isLoading: bool, isRefreshing: bool, notices: seq<Notice>)

  /** A command's effect: the state it leaves and the service calls it
      made, in order. */
  datatype Step = Step(screen: Screen, calls: seq<Call>)

  /** The placeholder "no distribution" panel. */
  predicate IsEmptyState(s: Screen) {
    !s.isLoading && |s.distributions| == 0
  }

  /** The list panel. */
  predicate HasDistributions(s: Screen) {
    !s.isLoading && |s.distributions| > 0
  }

  /** No command in progress. */
  predicate Idle(s: Screen) {
    !s.isLoading && !s.isRefreshing
  }

  /** The two panels are never shown together; when nothing is loading
      exactly one of them is, and while loading neither is. */
  lemma PanelsExclusive(s: Screen)
    ensures !(IsEmptyState(s) && HasDistributions(s))
    ensures !s.isLoading <==> IsEmptyState(s) || HasDistributions(s)
  {
  }

  function Notify(s: Screen, ns: seq<Notice>): Screen {
    s.(notices := s.notices + ns)
  }

  // ---------------------------------------------------------------------
  // LoadDistributionsAsync
  // ---------------------------------------------------------------------

  /** What the screen shows while a refresh waits for the service: the
      guard is raised and IsLoading is set. */
  function Fetching(s: Screen): Screen {
    s.(isRefreshing := true, isLoading := true)
  }

  /** The rest of a refresh once the service answered: on a list, the
      displayed list is cleared and refilled with it and, unless silent, an
      information (nothing found) or success notice follows; on an
      exception the list stays and an error is shown, silent or not. In
      both cases the finally block lowers IsLoading and the guard. The
      exception branch is the view model's own catch; with the service as
      it is, it is never taken, because GetDistributionsAsync catches every
      exception itself and returns the list gathered so far (empty). */
  function Loaded(s: Screen, silent: bool, fetched: Option<seq<Distribution>>): Screen {
    var done := s.(isLoading := false, isRefreshing := false);
    match fetched
    case None => Notify(done, [Error])
    case Some(ds) =>
      Notify(done.(distributions := ds), if silent then [] else if |ds| == 0 then [Info] else [Success])
  }

  /** LoadDistributionsAsync: ignored while a refresh is in flight. */
  function Load(s: Screen, silent: bool, fetched: Option<seq<Distribution>>): Step {
    if s.isRefreshing then Step(s, [])
    else Step(Loaded(Fetching(s), silent, fetched), [GetDistributions])
  }

  /** The guard: while a refresh is in flight, another call changes nothing
      and does not reach the service, whatever the service would answer. */
  lemma RefreshGuard(s: Screen, silent: bool, fetched: Option<seq<Distribution>>)
    requires s.isRefreshing
    ensures Load(s, silent, fetched) == Step(s, [])
  {
  }

  /** In particular a second refresh started while the first one waits is
      dropped, and the waiting screen shows neither panel. */
  lemma OverlappingRefresh(s: Screen, silent: bool, fetched: Option<seq<Distribution>>)
    ensures Load(Fetching(s), silent, fetched) == Step(Fetching(s), [])
    ensures !IsEmptyState(Fetching(s)) && !HasDistributions(Fetching(s))
  {
  }

  /** Otherwise the service is asked once; a fetched list replaces the
      displayed one entirely (same records, same order, nothing kept from
      before); a failed fetch keeps the displayed list; both flags end
      lowered; the notices only grow. */
  lemma LoadEffect(s: Screen, silent: bool, fetched: Option<seq<Distribution>>)
    requires !s.isRefreshing
    ensures Load(s, silent, fetched).calls == [GetDistributions]
    ensures Idle(Load(s, silent, fetched).screen)
    ensures fetched.Some? ==> Load(s, silent, fetched).screen.distributions == fetched.value
    ensures fetched.None? ==> Load(s, silent, fetched).screen.distributions == s.distributions
    ensures s.notices <= Load(s, silent, fetched).screen.notices
  {
  }

  /** The notice a refresh adds: an error exactly when the fetch threw,
      nothing else on a silent reload, and otherwise information for an
      empty list and success for a non-empty one. */
  lemma LoadNotices(s: Screen, silent: bool, fetched: Option<seq<Distribution>>)
    requires !s.isRefreshing
    ensures var added := Load(s, silent, fetched).screen.notices[|s.notices|..];
      && (fetched.None? <==> added == [Error])
      && (fetched.Some? && silent ==> added == [])
      && (fetched.Some? && !silent ==> added == (if fetched.value == [] then [Info] else [Success]))
  {
    var added := Load(s, silent, fetched).screen.notices[|s.notices|..];
    if fetched.Some? {
      assert added != [Error] by {
        if !silent && fetched.value != [] {
          assert added[0] == Success;
        }
      }
    }
  }

  // ---------------------------------------------------------------------
  // The commands
  // ---------------------------------------------------------------------

  /** The commands declared with a distribution parameter. */
  predicate TakesDistribution(a: Action) {
    !(a.RefreshCommand? || a.UpdateWslCommand? || a.ShutdownAllCommand? || a.InstallDistributionCommand?)
  }

  /** The distribution every install installs. */
  const InstallTarget: string := "Ubuntu"

  /** `distribution.Version == 1 ? 2 : 1` */
  function ConversionTarget(version: int): int {
    if version == 1 then 2 else 1
  }

  /** Path.Combine on Windows: a rooted second part replaces the first. */
  predicate IsPathRooted(p: string) {
    (|p| >= 1 && (p[0] == '\\' || p[0] == '/'))
    || (|p| >= 2 && p[1] == ':' && (('a' <= p[0] <= 'z') || ('A' <= p[0] <= 'Z')))
  }

  /** Path.Combine(first, second) on Windows. */
  function CombinePath(first: string, second: string): string {
    if first == [] then second
    else if second == [] then first
    else if IsPathRooted(second) then second
    else if first[|first| - 1] == '\\' || first[|first| - 1] == '/' then first + second
    else if second[0] == '\\' || second[0] == '/' then first + second
    else first + "\\" + second
  }

  /** The file an export writes: "{name}_backup_{timestamp}.tar" in the
      Documents folder. */
  function ExportPath(documents: string, name: string, timestamp: string): string {
    CombinePath(documents, name + "_backup_" + timestamp + ".tar")
  }

  /** The export file keeps the name and the timestamp and has the .tar
      extension; unless the name is itself a rooted path, it sits in the
      Documents folder. */
  lemma ExportPathShape(documents: string, name: string, timestamp: string)
    ensures var file := name + "_backup_" + timestamp + ".tar";
      var path := ExportPath(documents, name, timestamp);
      && |path| >= |file| && path[|path| - |file|..] == file
      && (!IsPathRooted(file) ==> path[..|documents|] == documents)
  {
    var file := name + "_backup_" + timestamp + ".tar";
    var path := ExportPath(documents, name, timestamp);
    if !IsPathRooted(file) && documents != [] {
      var sep := if path == documents + file then [] else "\\";
      assert path == documents + sep + file;
    }
  }

  /** The service call a command makes once its guards have passed. */
  function Request(a: Action, w: World): Call
    requires !a.RefreshCommand?
    requires TakesDistribution(a) ==> a.arg.Some?
  {
    match a
    case StartCommand(arg) => StartDistribution(arg.value.name)
    case StopCommand(arg) => StopDistribution(arg.value.name)
    case RestartCommand(arg) => RestartDistribution(arg.value.name)
    case OpenTerminalCommand(arg) => OpenTerminal(arg.value.name)
    case OpenExplorerCommand(arg) => OpenFileExplorer(arg.value.name)
    case SetDefaultCommand(arg) => SetDefaultDistribution(arg.value.name)
    case ShowInfoCommand(arg) => GetDistributionInfo(arg.value.name)
    case UpdateWslCommand => UpdateWsl
    case ConvertVersionCommand(arg) => ConvertWslVersion(arg.value.name, ConversionTarget(arg.value.version))
    case ExportCommand(arg) =>
      ExportDistribution(arg.value.name, ExportPath(w.documents, arg.value.name, w.timestamp))
    case DeleteCommand(arg) => UnregisterDistribution(arg.value.name)
    case ShutdownAllCommand => ShutdownAll
    case InstallDistributionCommand => InstallDistribution(InstallTarget)
    case UpdateInstanceCommand(arg) => UpdateDistributionPackages(arg.value.name)
  }

  /** The commands that raise IsLoading around their call and lower it in
      their finally block. Delete and the two launchers do not. */
  predicate TouchesLoading(a: Action) {
    !(a.DeleteCommand? || a.OpenTerminalCommand? || a.OpenExplorerCommand?)
  }

  /** The commands that reload the list (silently) after a success. */
  predicate Reloads(a: Action) {
    a.StartCommand? || a.StopCommand? || a.RestartCommand? || a.SetDefaultCommand?
    || a.ConvertVersionCommand? || a.DeleteCommand? || a.ShutdownAllCommand? || a.InstallDistributionCommand?
  }

  /** The notice shown before the call: a progress message, a warning for
      a deletion. */
  function Announce(a: Action): seq<Notice> {
    if a.DeleteCommand? then [Warning]
    else if a.RestartCommand? || a.UpdateWslCommand? || a.ConvertVersionCommand? || a.ExportCommand?
      || a.InstallDistributionCommand? || a.UpdateInstanceCommand? then [Info]
    else []
  }

  /** The notice for a call that returned false. */
  function Failure(a: Action): Notice {
    if a.UpdateWslCommand? || a.InstallDistributionCommand? || a.UpdateInstanceCommand? then Warning else Error
  }

  /** The try block after a call that returned: the launchers report
      success, the info command shows the text it got, the others report
      success or failure by the flag and reload on success if they do. */
  function Settle(s: Screen, a: Action, ok: bool, fetched: Option<seq<Distribution>>, call: Call): Step {
    if a.ShowInfoCommand? then Step(Notify(s, [Info]), [call])
    else if a.OpenTerminalCommand? || a.OpenExplorerCommand? then Step(Notify(s, [Success]), [call])
    else if !ok then Step(Notify(s, [Failure(a)]), [call])
    else if Reloads(a) then
      var reload := Load(Notify(s, [Success]), true, fetched);
      Step(reload.screen, [call] + reload.calls)
    else Step(Notify(s, [Success]), [call])
  }

  /** A command past its guards: announce, raise IsLoading, call, handle
      the reply (an exception becomes an error notice), lower IsLoading. */
  function Run(s: Screen, a: Action, w: World): Step
    requires !a.RefreshCommand?
    requires TakesDistribution(a) ==> a.arg.Some?
  {
    var call := Request(a, w);
    var started := Notify(s, Announce(a));
    var busy := if TouchesLoading(a) then started.(isLoading := true) else started;
    var after := match w.reply
      case Raised => Step(Notify(busy, [Error]), [call])
      case Returned(ok) => Settle(busy, a, ok, w.fetched, call);
    if TouchesLoading(a) then after.(screen := after.screen.(isLoading := false)) else after
  }

  /** One command of the window: the refresh command is a (non-silent)
      load; a command given a null distribution returns at once; setting
      the default distribution as default only informs; every other
      command runs. */
  function Act(s: Screen, a: Action, w: World): Step {
    if a.RefreshCommand? then Load(s, false, w.fetched)
    else if TakesDistribution(a) && a.arg.None? then Step(s, [])
    else if a.SetDefaultCommand? && a.arg.value.isDefault then Step(Notify(s, [Info]), [])
    else Run(s, a, w)
  }

  /** A null distribution is ignored: nothing changes, nothing is called. */
  lemma NullArgumentIgnored(s: Screen, a: Action, w: World)
    requires TakesDistribution(a) && a.arg.None?
    ensures Act(s, a, w) == Step(s, [])
  {
  }

  /** Setting the current default as default calls nothing and leaves the
      list and IsLoading as they were; it only informs. */
  lemma SetDefaultShortCircuit(s: Screen, d: Distribution, w: World)
    requires d.isDefault
    ensures Act(s, SetDefaultCommand(Some(d)), w) == Step(Notify(s, [Info]), [])
  {
  }

  /** The conversion asks for the other version: 2 for a WSL 1
      distribution, 1 for every other version number, so never the
      version a WSL 1 or WSL 2 distribution already has. */
  lemma ConvertTarget(s: Screen, d: Distribution, w: World)
    ensures Act(s, ConvertVersionCommand(Some(d)), w).calls[0] == ConvertWslVersion(d.name, ConversionTarget(d.version))
    ensures ConversionTarget(d.version) == 1 || ConversionTarget(d.version) == 2
    ensures ConversionTarget(d.version) == 2 <==> d.version == 1
    ensures d.version == 1 || d.version == 2 ==> ConversionTarget(d.version) != d.version
  {
  }

  /** The install command always installs Ubuntu. */
  lemma InstallTargetsUbuntu(s: Screen, w: World)
    ensures Act(s, InstallDistributionCommand, w).calls[0] == InstallDistribution("Ubuntu")
  {
  }

  /** A command past its guards calls its own service method first, and
      after it at most the reload: the reload comes exactly when the call
      returned true, the command reloads and no refresh is in flight. */
  lemma RunCalls(s: Screen, a: Action, w: World)
    requires !a.RefreshCommand? && (TakesDistribution(a) ==> a.arg.Some?)
    ensures var calls := Run(s, a, w).calls;
      && |calls| > 0 && calls[0] == Request(a, w)
      && (calls[1..] == [GetDistributions] <==> w.reply == Returned(true) && Reloads(a) && !s.isRefreshing)
      && (calls[1..] == [] <==> !(w.reply == Returned(true) && Reloads(a) && !s.isRefreshing))
  {
    var ns := Announce(a);
    var busy := if TouchesLoading(a) then Notify(s, ns).(isLoading := true) else Notify(s, ns);
    assert busy.isRefreshing == s.isRefreshing;
    if w.reply == Returned(true) && Reloads(a) {
      assert !a.ShowInfoCommand? && !a.OpenTerminalCommand? && !a.OpenExplorerCommand?;
      var reload := Load(Notify(busy, [Success]), true, w.fetched);
      assert Run(s, a, w).calls == [Request(a, w)] + reload.calls;
    }
  }

  /** IsLoading is lowered in the finally block of every command that
      raised it, whatever the call returned or threw. */
  lemma LoadingEndsLowered(s: Screen, a: Action, w: World)
    requires !a.RefreshCommand? && (TakesDistribution(a) ==> a.arg.Some?)
    requires TouchesLoading(a)
    ensures !Run(s, a, w).screen.isLoading
  {
  }

  /** A deletion leaves IsLoading as it found it, unless its reload ran
      (and lowered it). */
  lemma DeleteLeavesLoading(s: Screen, d: Distribution, w: World)
    ensures var r := Act(s, DeleteCommand(Some(d)), w);
      r.screen.isLoading == (s.isLoading && !(GetDistributions in r.calls))
  {
    var r := Act(s, DeleteCommand(Some(d)), w);
    RunCalls(s, DeleteCommand(Some(d)), w);
    if GetDistributions !in r.calls {
      assert r.calls == [UnregisterDistribution(d.name)];
    }
  }

  /** The list a command leaves on screen: the list its reload fetched,
      when a reload reached the service and got one, and otherwise the
      list that was there. */
  lemma ShownList(s: Screen, a: Action, w: World)
    ensures var r := Act(s, a, w);
      r.screen.distributions ==
        if GetDistributions in r.calls && w.fetched.Some? then w.fetched.value else s.distributions
  {
    if !a.RefreshCommand? && !(TakesDistribution(a) && a.arg.None?)
      && !(a.SetDefaultCommand? && a.arg.value.isDefault) {
      RunCalls(s, a, w);
      RunShownList(s, a, w);
    }
  }

  lemma RunShownList(s: Screen, a: Action, w: World)
    requires !a.RefreshCommand? && (TakesDistribution(a) ==> a.arg.Some?)
    ensures Run(s, a, w).screen.distributions ==
      if w.reply == Returned(true) && Reloads(a) && !s.isRefreshing && w.fetched.Some? then w.fetched.value
      else s.distributions
  {
  }

  /** Every command leaves an idle view model idle: IsLoading and the
      guard end lowered. */
  lemma ActKeepsIdle(s: Screen, a: Action, w: World)
    requires Idle(s)
    ensures Idle(Act(s, a, w).screen)
  {
    if a.RefreshCommand? {
      LoadEffect(s, false, w.fetched);
    } else if !(TakesDistribution(a) && a.arg.None?) && !(a.SetDefaultCommand? && a.arg.value.isDefault) {
      RunKeepsIdle(s, a, w);
    }
  }

  lemma RunKeepsIdle(s: Screen, a: Action, w: World)
    requires Idle(s)
    requires !a.RefreshCommand? && (TakesDistribution(a) ==> a.arg.Some?)
    ensures Idle(Run(s, a, w).screen)
  {
  }

  /** Notices are only ever added. */
  lemma ActAddsNotices(s: Screen, a: Action, w: World)
    ensures s.notices <= Act(s, a, w).screen.notices
  {
    if a.RefreshCommand? {
      if !s.isRefreshing {
        LoadEffect(s, false, w.fetched);
      }
    } else if !(TakesDistribution(a) && a.arg.None?) && !(a.SetDefaultCommand? && a.arg.value.isDefault) {
      RunAddsNotices(s, a, w);
    }
  }

  lemma RunAddsNotices(s: Screen, a: Action, w: World)
    requires !a.RefreshCommand? && (TakesDistribution(a) ==> a.arg.Some?)
    ensures s.notices <= Run(s, a, w).screen.notices
  {
    var started := Notify(s, Announce(a));
    var busy := if TouchesLoading(a) then started.(isLoading := true) else started;
    assert s.notices <= busy.notices;
    assert busy.notices <= Run(s, a, w).screen.notices by {
      match w.reply
      case Raised =>
      case Returned(ok) => SettleAddsNotices(busy, a, ok, w.fetched, Request(a, w));
    }
  }

  lemma SettleAddsNotices(s: Screen, a: Action, ok: bool, fetched: Option<seq<Distribution>>, call: Call)
    ensures s.notices <= Settle(s, a, ok, fetched, call).screen.notices
  {
    var success := Notify(s, [Success]);
    if !success.isRefreshing {
      LoadEffect(success, true, fetched);
    }
  }

  // ---------------------------------------------------------------------
  // A session of commands
  // ---------------------------------------------------------------------

  /** The state after a sequence of commands, each with the world's
      answers during it, and all service calls made, in order. */
  function Session(s: Screen, cmds: seq<(Action, World)>): Step
    decreases |cmds|
  {
    if |cmds| == 0 then Step(s, [])
    else
      var first := Act(s, cmds[0].0, cmds[0].1);
      var rest := Session(first.screen, cmds[1..]);
      Step(rest.screen, first.calls + rest.calls)
  }

  /** Started idle, the view model is idle after any sequence of commands,
      and so shows exactly one of its two panels. */
  lemma {:induction false} SessionEndsIdle(s: Screen, cmds: seq<(Action, World)>)
    requires Idle(s)
    ensures Idle(Session(s, cmds).screen)
    ensures IsEmptyState(Session(s, cmds).screen) != HasDistributions(Session(s, cmds).screen)
    decreases |cmds|
  {
    if |cmds| > 0 {
      ActKeepsIdle(s, cmds[0].0, cmds[0].1);
      SessionEndsIdle(Act(s, cmds[0].0, cmds[0].1).screen, cmds[1..]);
    }
  }
}
