/** The life of plugins in the plugin manager: what is called in a plugin's library, and when. */
module Plugins {
  import opened Options

  // ---- What happens in a library, call by call ----

  datatype Call =
    | Open
    | ReadInfo
    | Create(instance: nat)
    | ActivateHook(instance: nat)
    | BecomeActive
    | GetProviders(instance: nat)
    | DeactivateHook(instance: nat)
    | BecomeInactive
    | Destroy(instance: nat)
    | Close

  datatype Event = Event(library: nat, call: Call)

  /** The phases of a library's life; anything out of order breaks it for good. */
  datatype Phase = Unopened | Idle | Live(instance: nat, active: bool) | Closed | Broken

  function Next(p: Phase, c: Call): Phase {
    match c
    case Open => if p.Unopened? then Idle else Broken
    case ReadInfo => if p.Idle? then Idle else Broken
    case Create(i) => if p.Idle? then Live(i, false) else Broken
    case ActivateHook(i) => if p == Live(i, false) then p else Broken
    case BecomeActive => if p.Live? && !p.active then Live(p.instance, true) else Broken
    case GetProviders(i) => if p == Live(i, true) then p else Broken
    case DeactivateHook(i) => if p == Live(i, true) then p else Broken
    case BecomeInactive => if p.Live? && p.active then Live(p.instance, false) else Broken
    case Destroy(i) => if p == Live(i, false) then Idle else Broken
    case Close => if p.Idle? then Closed else Broken
  }

  function PhaseOf(trace: seq<Event>, library: nat): Phase {
    if trace == [] then Unopened
    else
      var before, e := PhaseOf(trace[..|trace| - 1], library), trace[|trace| - 1];
      if e.library == library then Next(before, e.call) else before
  }

  lemma OneMoreEvent(trace: seq<Event>, e: Event, library: nat)
    ensures PhaseOf(trace + [e], library)
            == if e.library == library then Next(PhaseOf(trace, library), e.call) else PhaseOf(trace, library)
  {
    assert (trace + [e])[..|trace|] == trace;
  }

  function CountCreated(trace: seq<Event>, library: nat, instance: nat): nat {
    if trace == [] then 0
    else CountCreated(trace[..|trace| - 1], library, instance)
         + if trace[|trace| - 1] == Event(library, Create(instance)) then 1 else 0
  }

  function CountDestroyed(trace: seq<Event>, library: nat, instance: nat): nat {
    if trace == [] then 0
    else CountDestroyed(trace[..|trace| - 1], library, instance)
         + if trace[|trace| - 1] == Event(library, Destroy(instance)) then 1 else 0
  }

  /** As long as a library's life is in order, each instance it created is destroyed once, unless it is the live one. */
  lemma {:induction false} CreatedAreDestroyed(trace: seq<Event>, library: nat, instance: nat)
    requires !PhaseOf(trace, library).Broken?
    ensures var p := PhaseOf(trace, library);
            CountCreated(trace, library, instance) == CountDestroyed(trace, library, instance)
            + if p.Live? && p.instance == instance then 1 else 0
  {
    if trace != [] {
      CreatedAreDestroyed(trace[..|trace| - 1], library, instance);
    }
  }

  /** Nothing is called in a closed library. */
  lemma {:induction false} NothingAfterClose(trace: seq<Event>, more: seq<Event>, library: nat)
    requires PhaseOf(trace, library).Closed? && !PhaseOf(trace + more, library).Broken?
    ensures forall e :: e in more ==> e.library != library
    decreases |more|
  {
    if more != [] {
      var front, last := more[..|more| - 1], more[|more| - 1];
      assert trace + more == trace + front + [last];
      OneMoreEvent(trace + front, last, library);
      NothingAfterClose(trace, front, library);
      StillClosed(trace, front, library);
      assert more == front + [last];
    }
  }

  lemma {:induction false} StillClosed(trace: seq<Event>, more: seq<Event>, library: nat)
    requires PhaseOf(trace, library).Closed? && forall e :: e in more ==> e.library != library
    ensures PhaseOf(trace + more, library).Closed?
    decreases |more|
  {
    if more == [] {
      assert trace + more == trace;
    } else {
      var front, last := more[..|more| - 1], more[|more| - 1];
      assert trace + more == trace + front + [last];
      OneMoreEvent(trace + front, last, library);
      StillClosed(trace, front, library);
    }
  }

  /** A library's activate hook, or its deactivate hook. */
  predicate IsHook(e: Event, library: nat, activating: bool) {
    e.library == library && if activating then e.call.ActivateHook? else e.call.DeactivateHook?
  }

  /** How often one of a library's two hooks was called. */
  function HookCalls(trace: seq<Event>, library: nat, activating: bool): nat {
    if trace == [] then 0
    else HookCalls(trace[..|trace| - 1], library, activating)
         + if IsHook(trace[|trace| - 1], library, activating) then 1 else 0
  }

  // ---- Failure reports ----

  datatype Report = Loaded | Failed(threshold: nat) | Succeeded | Reset

  /** Failures since the last success, reset or load. */
  function Failures(reports: seq<Report>): nat {
    if reports == [] then 0
    else if reports[|reports| - 1].Failed? then Failures(reports[..|reports| - 1]) + 1 else 0
  }

  /** The breaker opens when a failure reaches the threshold in force, and only a reset or a load closes it. */
  function BreakerOpen(reports: seq<Report>): bool {
    if reports == [] then false
    else
      var before := BreakerOpen(reports[..|reports| - 1]);
      match reports[|reports| - 1]
      case Loaded => false
      case Reset => false
      case Succeeded => before
      case Failed(t) => before || (t > 0 && Failures(reports) >= t)
  }

  lemma OneMoreReport(reports: seq<Report>, r: Report)
    ensures Failures(reports + [r]) == if r.Failed? then Failures(reports) + 1 else 0
    ensures BreakerOpen(reports + [r])
            == (match r
                case Loaded => false
                case Reset => false
                case Succeeded => BreakerOpen(reports)
                case Failed(t) => BreakerOpen(reports) || (t > 0 && Failures(reports) + 1 >= t))
  {
    assert (reports + [r])[..|reports|] == reports;
  }

  lemma {:induction false} OpenBreakerStaysOpen(reports: seq<Report>, more: seq<Report>)
    requires BreakerOpen(reports) && Loaded !in more && Reset !in more
    ensures BreakerOpen(reports + more)
    decreases |more|
  {
    if more == [] {
      assert reports + more == reports;
    } else {
      var front, last := more[..|more| - 1], more[|more| - 1];
      assert last in more && reports + more == reports + front + [last];
      OpenBreakerStaysOpen(reports, front);
      OneMoreReport(reports + front, last);
    }
  }

  // ---- The manager ----

  /** What a library offers once it is open; None for what it lacks. */
  datatype Library = Library(hasGetInfo: bool, info: Option<PluginInfo>, hasCreate: bool, hasDestroy: bool,
                             hasActivate: bool, hasDeactivate: bool, exports: set<string>)

  datatype PluginInfo = PluginInfo(id: string, apiVersion: nat, hostVersionFits: bool)

  /** How a plugin answers while it is being activated. */
  datatype Answers = Answers(created: Option<nat>, activateResult: int, offered: set<string>)

  datatype PluginHandle = PluginHandle(library: nat, hasActivate: bool, hasDeactivate: bool, exports: set<string>,
                                       instance: Option<nat>, active: bool, providers: set<string>,
                                       consecutiveFailures: nat, circuitOpen: bool, lastError: string)

  const API_VERSION: nat := 1

  /** A handle mirrors its library's phase; providers are cached only while it is active. */
  ghost predicate Mirrors(h: PluginHandle, trace: seq<Event>) {
    && PhaseOf(trace, h.library) == (if h.instance.None? then Idle else Live(h.instance.value, h.active))
    && (h.active ==> h.instance.Some?)
    && (!h.active ==> h.providers == {})
  }

  ghost predicate Counts(h: PluginHandle, reports: seq<Report>) {
    h.consecutiveFailures == Failures(reports) && h.circuitOpen == BreakerOpen(reports)
  }

  ghost predicate AllCount(plugins: map<string, PluginHandle>, reports: map<string, seq<Report>>) {
    forall id :: id in plugins ==> id in reports && Counts(plugins[id], reports[id])
  }

  /** Changes that leave the failure record alone. */
  lemma CountsStay(plugins: map<string, PluginHandle>, reports: map<string, seq<Report>>, id: string, h: PluginHandle)
    requires AllCount(plugins, reports) && id in plugins
    requires h.consecutiveFailures == plugins[id].consecutiveFailures && h.circuitOpen == plugins[id].circuitOpen
    ensures AllCount(plugins[id := h], reports)
  {
  }

  ghost predicate InOrder(plugins: map<string, PluginHandle>, trace: seq<Event>, nextLibrary: nat) {
    && (forall id :: id in plugins ==> Mirrors(plugins[id], trace) && plugins[id].library < nextLibrary)
    && (forall id, other :: id in plugins && other in plugins && plugins[id].library == plugins[other].library ==>
          id == other)
    && (forall lib: nat :: lib < nextLibrary ==> PhaseOf(trace, lib).Closed? || Owned(plugins, lib))
    && (forall lib: nat :: lib >= nextLibrary ==> PhaseOf(trace, lib).Unopened?)
  }

  ghost predicate Owned(plugins: map<string, PluginHandle>, library: nat) {
    exists id :: id in plugins && plugins[id].library == library
  }

  /** The two traces differ in what happened in one library only. */
  ghost predicate OnlyIn(before: seq<Event>, after: seq<Event>, library: nat) {
    forall lib :: lib != library ==> PhaseOf(after, lib) == PhaseOf(before, lib)
  }

  lemma HandleChanged(plugins: map<string, PluginHandle>, before: seq<Event>, after: seq<Event>, nextLibrary: nat,
                      id: string, h: PluginHandle)
    requires InOrder(plugins, before, nextLibrary) && id in plugins && h.library == plugins[id].library
    requires OnlyIn(before, after, h.library) && Mirrors(h, after)
    ensures InOrder(plugins[id := h], after, nextLibrary)
  {
    var changed := plugins[id := h];
    forall lib: nat | lib < nextLibrary ensures PhaseOf(after, lib).Closed? || Owned(changed, lib) {
      if Owned(plugins, lib) {
        var owner :| owner in plugins && plugins[owner].library == lib;
        assert owner in changed && changed[owner].library == lib;
      }
    }
  }

  lemma HandleRemoved(plugins: map<string, PluginHandle>, before: seq<Event>, after: seq<Event>, nextLibrary: nat,
                      id: string)
    requires InOrder(plugins, before, nextLibrary) && id in plugins
    requires OnlyIn(before, after, plugins[id].library) && PhaseOf(after, plugins[id].library).Closed?
    ensures InOrder(plugins - {id}, after, nextLibrary)
  {
    var left := plugins - {id};
    forall lib: nat | lib < nextLibrary ensures PhaseOf(after, lib).Closed? || Owned(left, lib) {
      if Owned(plugins, lib) && lib != plugins[id].library {
        var owner :| owner in plugins && plugins[owner].library == lib;
        assert owner in left && left[owner].library == lib;
      }
    }
  }

  lemma LibraryOpened(plugins: map<string, PluginHandle>, before: seq<Event>, after: seq<Event>, nextLibrary: nat)
    requires InOrder(plugins, before, nextLibrary)
    requires OnlyIn(before, after, nextLibrary) && PhaseOf(after, nextLibrary).Closed?
    ensures InOrder(plugins, after, nextLibrary + 1)
  {
    forall id | id in plugins ensures Mirrors(plugins[id], after) {
      assert Mirrors(plugins[id], before) && plugins[id].library < nextLibrary;
    }
  }

  lemma HandleAdded(plugins: map<string, PluginHandle>, before: seq<Event>, after: seq<Event>, nextLibrary: nat,
                    id: string, h: PluginHandle)
    requires InOrder(plugins, before, nextLibrary) && id !in plugins && h.library == nextLibrary
    requires OnlyIn(before, after, nextLibrary) && Mirrors(h, after)
    ensures InOrder(plugins[id := h], after, nextLibrary + 1)
  {
    var more := plugins[id := h];
    forall other | other in more ensures Mirrors(more[other], after) && more[other].library < nextLibrary + 1 {
      if other != id {
        assert Mirrors(plugins[other], before) && plugins[other].library < nextLibrary;
      }
    }
    forall lib: nat | lib < nextLibrary + 1 ensures PhaseOf(after, lib).Closed? || Owned(more, lib) {
      if lib == nextLibrary {
        assert id in more && more[id].library == lib;
      } else if Owned(plugins, lib) {
        var owner :| owner in plugins && plugins[owner].library == lib;
        assert owner in more && more[owner].library == lib;
      }
    }
  }

  class PluginManager {
    var plugins: map<string, PluginHandle>
    var maxConsecutiveFailures: nat
    var nextLibrary: nat
    ghost var trace: seq<Event>
    ghost var reports: map<string, seq<Report>>

    ghost predicate Valid()
      reads this
    {
      && InOrder(plugins, trace, nextLibrary)
      && AllCount(plugins, reports)
    }

    constructor ()
      ensures Valid() && plugins == map[] && trace == []
    {
      plugins, maxConsecutiveFailures, nextLibrary, trace, reports := map[], 0, 0, [], map[];
    }

    ghost method Happens(library: nat, c: Call)
      modifies this`trace
      ensures trace == old(trace) + [Event(library, c)]
      ensures PhaseOf(trace, library) == Next(old(PhaseOf(trace, library)), c)
      ensures OnlyIn(old(trace), trace, library)
      ensures forall activating ::
                HookCalls(trace, library, activating) == HookCalls(old(trace), library, activating)
                  + if IsHook(Event(library, c), library, activating) then 1 else 0
    {
      assert (trace + [Event(library, c)])[..|trace|] == trace;
      forall lib ensures PhaseOf(trace + [Event(library, c)], lib)
                         == if lib == library then Next(PhaseOf(trace, lib), c) else PhaseOf(trace, lib)
      {
        OneMoreEvent(trace, Event(library, c), lib);
      }
      trace := trace + [Event(library, c)];
    }

    /** Opens a library and keeps it if it is a plugin that is not loaded yet. */
    method LoadPlugin(lib: Option<Library>) returns (id: string)
      requires Valid()
      modifies this
      ensures Valid() && old(trace) <= trace
      ensures lib.None? ==> plugins == old(plugins) && id == ""
      ensures lib.Some? && Loadable(lib.value) && lib.value.info.value.id !in old(plugins) ==>
                && id == lib.value.info.value.id && id in plugins && plugins == old(plugins)[id := plugins[id]]
                && plugins[id].instance.None? && !plugins[id].active && reports[id] == [Loaded]
      ensures lib.Some? && !(Loadable(lib.value) && lib.value.info.value.id !in old(plugins)) ==>
                id == "" && plugins == old(plugins)
    {
      if lib.None? {
        return "";
      }
      var l, handle := lib.value, nextLibrary;
      ghost var before := trace;
      var kept := OpenLibrary(l, handle, l.info.Some? && l.info.value.id in plugins);
      nextLibrary := nextLibrary + 1;
      if !kept {
        LibraryOpened(plugins, before, trace, handle);
        return "";
      }
      id := l.info.value.id;
      var h := PluginHandle(handle, l.hasActivate, l.hasDeactivate, l.exports, None, false, {}, 0, false, "");
      HandleAdded(plugins, before, trace, handle, id, h);
      plugins := plugins[id := h];
      reports := reports[id := [Loaded]];
    }

    /** Opens a library, and closes it again if it is not to be kept. */
    method OpenLibrary(l: Library, handle: nat, isLoaded: bool) returns (kept: bool)
      requires PhaseOf(trace, handle).Unopened?
      modifies this`trace
      ensures OnlyIn(old(trace), trace, handle) && old(trace) <= trace
      ensures kept <==> Loadable(l) && !isLoaded
      ensures PhaseOf(trace, handle) == if kept then Idle else Closed
    {
      Happens(handle, Open);
      if l.hasGetInfo {
        Happens(handle, ReadInfo);
      }
      kept := l.hasGetInfo && l.info.Some? && l.info.value.apiVersion == API_VERSION && l.info.value.hostVersionFits
              && l.hasCreate && l.hasDestroy && !isLoaded;
      if !kept {
        Happens(handle, Close);
      }
    }

    /** Deactivates, destroys and closes what there is of a plugin. */
    method Shut(h: PluginHandle)
      requires Mirrors(h, trace)
      modifies this`trace
      ensures PhaseOf(trace, h.library).Closed? && OnlyIn(old(trace), trace, h.library) && old(trace) <= trace
      ensures HookCalls(trace, h.library, false) ==
                HookCalls(old(trace), h.library, false) + if h.active && h.hasDeactivate then 1 else 0
    {
      if h.active {
        Stop(h);
      }
      if h.instance.Some? {
        Happens(h.library, Destroy(h.instance.value));
      }
      Happens(h.library, Close);
    }

    method Remove(id: string)
      requires Valid() && id in plugins
      modifies this
      ensures Valid() && old(trace) <= trace && plugins == old(plugins) - {id} && nextLibrary == old(nextLibrary)
      ensures PhaseOf(trace, old(plugins)[id].library).Closed?
      ensures var h := old(plugins)[id];
              HookCalls(trace, h.library, false) ==
                HookCalls(old(trace), h.library, false) + if h.active && h.hasDeactivate then 1 else 0
    {
      ghost var before := trace;
      Shut(plugins[id]);
      HandleRemoved(plugins, before, trace, nextLibrary, id);
      plugins := plugins - {id};
    }

    method UnloadPlugin(id: string) returns (ok: bool)
      requires Valid()
      modifies this
      ensures Valid() && old(trace) <= trace
      ensures ok == (id in old(plugins)) && plugins == old(plugins) - {id}
      ensures ok ==> PhaseOf(trace, old(plugins)[id].library).Closed?
      ensures ok ==> var h := old(plugins)[id];
                     HookCalls(trace, h.library, false) ==
                       HookCalls(old(trace), h.library, false) + if h.active && h.hasDeactivate then 1 else 0
    {
      if id !in plugins {
        return false;
      }
      Remove(id);
      return true;
    }

    method UnloadAll()
      requires Valid()
      modifies this
      ensures Valid() && plugins == map[] && old(trace) <= trace
      ensures forall lib: nat :: lib < nextLibrary ==> PhaseOf(trace, lib).Closed?
      ensures nextLibrary == old(nextLibrary)
    {
      ghost var started, libraries := trace, nextLibrary;
      while plugins != map[]
        invariant Valid() && started <= trace && nextLibrary == libraries
        decreases |plugins|
      {
        var id :| id in plugins;
        ghost var before := plugins;
        Remove(id);
        assert before.Keys == plugins.Keys + {id};
      }
      AllClosed(trace, nextLibrary);
    }

    /** Puts back a handle after something happened in its library. */
    method Replace(id: string, h: PluginHandle, ghost before: seq<Event>)
      requires InOrder(plugins, before, nextLibrary) && AllCount(plugins, reports) && id in plugins
      requires h == plugins[id].(instance := h.instance, active := h.active, providers := h.providers)
      requires OnlyIn(before, trace, h.library) && Mirrors(h, trace)
      modifies this`plugins
      ensures Valid() && plugins == old(plugins)[id := h]
    {
      HandleChanged(plugins, before, trace, nextLibrary, id, h);
      CountsStay(plugins, reports, id, h);
      plugins := plugins[id := h];
    }

    method ActivatePlugin(id: string, answers: Answers) returns (ok: bool)
      requires Valid()
      modifies this
      ensures Valid() && old(trace) <= trace && plugins.Keys == old(plugins).Keys && reports == old(reports)
      ensures forall other :: other in plugins && other != id ==> plugins[other] == old(plugins)[other]
      ensures ok <==> id in plugins && plugins[id].active
      ensures ok <==> id in plugins && (old(plugins)[id].active || CanStart(old(plugins)[id], answers))
      ensures id in old(plugins) && old(plugins)[id].active ==> plugins == old(plugins)
      ensures id in old(plugins) && !ok ==> plugins[id].instance.None? && plugins[id].providers == {}
      ensures ok && !old(plugins)[id].active ==> plugins[id].providers == plugins[id].exports * answers.offered
      ensures id in old(plugins) ==>
                var h := old(plugins)[id];
                HookCalls(trace, h.library, true) == HookCalls(old(trace), h.library, true)
                  + if !h.active && h.hasActivate && (h.instance.Some? || answers.created.Some?) then 1 else 0
    {
      if id !in plugins {
        return false;
      }
      var h := plugins[id];
      if h.active {
        return true;
      }
      ghost var before := trace;
      h, ok := Start(h, answers);
      Replace(id, h, before);
    }

    /** Creates the instance if there is none, runs the hook and caches the providers. */
    method Start(given: PluginHandle, answers: Answers) returns (h: PluginHandle, ok: bool)
      requires Mirrors(given, trace) && !given.active
      modifies this`trace
      ensures Mirrors(h, trace) && OnlyIn(old(trace), trace, given.library) && old(trace) <= trace
      ensures h == given.(instance := h.instance, active := h.active, providers := h.providers)
      ensures ok == h.active
      ensures ok <==> CanStart(given, answers)
      ensures ok ==> h.providers == h.exports * answers.offered
      ensures !ok ==> h.instance.None? && h.providers == {}
      ensures HookCalls(trace, given.library, true) == HookCalls(old(trace), given.library, true)
                + if given.hasActivate && (given.instance.Some? || answers.created.Some?) then 1 else 0
    {
      h := given;
      if h.instance.None? {
        if answers.created.None? {
          return h, false;
        }
        h := h.(instance := answers.created);
        Happens(h.library, Create(h.instance.value));
      }
      ok := RunActivateHook(h.library, h.instance.value, h.hasActivate, answers.activateResult);
      if !ok {
        return h.(instance := None), false;
      }
      h := h.(active := true, providers := h.exports * answers.offered);
    }

    /** A hook that fails costs the plugin its instance; else the plugin is active and asked for its providers. */
    method RunActivateHook(library: nat, instance: nat, hasActivate: bool, result: int) returns (ok: bool)
      requires PhaseOf(trace, library) == Live(instance, false)
      modifies this`trace
      ensures OnlyIn(old(trace), trace, library) && old(trace) <= trace
      ensures ok <==> (hasActivate ==> result == 0)
      ensures PhaseOf(trace, library) == if ok then Live(instance, true) else Idle
      ensures HookCalls(trace, library, true) == HookCalls(old(trace), library, true) + if hasActivate then 1 else 0
    {
      if hasActivate {
        Happens(library, ActivateHook(instance));
        if result != 0 {
          Happens(library, Destroy(instance));
          return false;
        }
      }
      Happens(library, BecomeActive);
      Happens(library, GetProviders(instance));
      return true;
    }

    method DeactivatePlugin(id: string) returns (ok: bool)
      requires Valid()
      modifies this
      ensures Valid() && old(trace) <= trace && plugins.Keys == old(plugins).Keys && reports == old(reports)
      ensures forall other :: other in plugins && other != id ==> plugins[other] == old(plugins)[other]
      ensures ok == (id in plugins)
      ensures ok ==> !plugins[id].active && plugins[id].providers == {}
                     && plugins[id].instance == old(plugins)[id].instance
      ensures ok ==> var h := old(plugins)[id];
                     HookCalls(trace, h.library, false) ==
                       HookCalls(old(trace), h.library, false) + if h.active && h.hasDeactivate then 1 else 0
    {
      if id !in plugins {
        return false;
      }
      var h := plugins[id];
      if !h.active {
        return true;
      }
      ghost var before := trace;
      Stop(h);
      h := h.(active := false, providers := {});
      Replace(id, h, before);
      return true;
    }

    /** The hook, if the plugin has one, and the end of the active phase. */
    method Stop(h: PluginHandle)
      requires Mirrors(h, trace) && h.active
      modifies this`trace
      ensures PhaseOf(trace, h.library) == Live(h.instance.value, false)
      ensures OnlyIn(old(trace), trace, h.library) && old(trace) <= trace
      ensures HookCalls(trace, h.library, false) ==
                HookCalls(old(trace), h.library, false) + if h.hasDeactivate then 1 else 0
    {
      if h.hasDeactivate && h.instance.Some? {
        Happens(h.library, DeactivateHook(h.instance.value));
      }
      Happens(h.library, BecomeInactive);
    }

    method SetSandboxPolicy(threshold: nat)
      requires Valid()
      modifies this`maxConsecutiveFailures
      ensures Valid() && maxConsecutiveFailures == threshold
    {
      maxConsecutiveFailures := threshold;
    }

    /** Changes only the failure record of one plugin. */
    method Record(id: string, h: PluginHandle, ghost r: Report)
      requires Valid() && id in plugins
      requires h == plugins[id].(consecutiveFailures := h.consecutiveFailures, circuitOpen := h.circuitOpen,
                                 lastError := h.lastError)
      requires Counts(h, reports[id] + [r])
      modifies this`plugins, this`reports
      ensures Valid() && plugins == old(plugins)[id := h] && reports == old(reports)[id := old(reports)[id] + [r]]
    {
      assert Mirrors(plugins[id], trace);
      HandleChanged(plugins, trace, trace, nextLibrary, id, h);
      plugins := plugins[id := h];
      reports := reports[id := reports[id] + [r]];
    }

    method RecordPluginFailure(id: string, error: string)
      requires Valid()
      modifies this`plugins, this`reports
      ensures Valid()
      ensures id !in old(plugins) ==> plugins == old(plugins) && reports == old(reports)
      ensures id in old(plugins) ==>
                && reports == old(reports)[id := old(reports)[id] + [Failed(maxConsecutiveFailures)]]
                && id in plugins && plugins == old(plugins)[id := plugins[id]] && plugins[id].lastError == error
    {
      if id !in plugins {
        return;
      }
      OneMoreReport(reports[id], Failed(maxConsecutiveFailures));
      var h := plugins[id];
      h := h.(lastError := error, consecutiveFailures := h.consecutiveFailures + 1);
      if maxConsecutiveFailures > 0 && h.consecutiveFailures >= maxConsecutiveFailures {
        h := h.(circuitOpen := true);
      }
      Record(id, h, Failed(maxConsecutiveFailures));
    }

    method RecordPluginSuccess(id: string)
      requires Valid()
      modifies this`plugins, this`reports
      ensures Valid()
      ensures id !in old(plugins) ==> plugins == old(plugins) && reports == old(reports)
      ensures id in old(plugins) ==> reports == old(reports)[id := old(reports)[id] + [Succeeded]]
    {
      if id !in plugins {
        return;
      }
      OneMoreReport(reports[id], Succeeded);
      Record(id, plugins[id].(consecutiveFailures := 0), Succeeded);
    }

    method ResetCircuitBreaker(id: string)
      requires Valid()
      modifies this`plugins, this`reports
      ensures Valid()
      ensures id !in old(plugins) ==> plugins == old(plugins) && reports == old(reports)
      ensures id in old(plugins) ==> reports == old(reports)[id := old(reports)[id] + [Reset]]
    {
      if id !in plugins {
        return;
      }
      OneMoreReport(reports[id], Reset);
      Record(id, plugins[id].(circuitOpen := false, consecutiveFailures := 0, lastError := ""), Reset);
    }

    method IsCircuitOpen(id: string) returns (r: bool)
      requires Valid()
      ensures r <==> id in plugins && BreakerOpen(reports[id])
    {
      return id in plugins && plugins[id].circuitOpen;
    }
  }

  predicate CanStart(h: PluginHandle, answers: Answers) {
    (h.instance.Some? || answers.created.Some?) && (h.hasActivate ==> answers.activateResult == 0)
  }

  lemma AllClosed(trace: seq<Event>, nextLibrary: nat)
    requires InOrder(map[], trace, nextLibrary)
    ensures forall lib: nat :: lib < nextLibrary ==> PhaseOf(trace, lib).Closed?
  {
    forall lib: nat | lib < nextLibrary ensures PhaseOf(trace, lib).Closed? {
      assert !Owned(map[], lib);
    }
  }

  predicate Loadable(l: Library) {
    && l.hasGetInfo && l.info.Some? && l.info.value.apiVersion == API_VERSION && l.info.value.hostVersionFits
    && l.hasCreate && l.hasDestroy
  }

  /** At every moment no library's life is broken: hooks got a live instance, deactivate ran only from active,
      providers were asked only while active, and nothing was called before opening or after closing. */
  lemma NothingIsBroken(plugins: map<string, PluginHandle>, trace: seq<Event>, nextLibrary: nat, lib: nat)
    requires InOrder(plugins, trace, nextLibrary)
    ensures !PhaseOf(trace, lib).Broken?
  {
    if lib < nextLibrary && Owned(plugins, lib) {
      var id :| id in plugins && plugins[id].library == lib;
      assert Mirrors(plugins[id], trace);
    }
  }

  /** Once everything is unloaded, every instance ever created has been destroyed exactly as often. */
  lemma NoInstanceIsLeaked(trace: seq<Event>, nextLibrary: nat, lib: nat, instance: nat)
    requires InOrder(map[], trace, nextLibrary)
    ensures CountCreated(trace, lib, instance) == CountDestroyed(trace, lib, instance)
  {
    NothingIsBroken(map[], trace, nextLibrary, lib);
    CreatedAreDestroyed(trace, lib, instance);
    if lib < nextLibrary {
      assert !Owned(map[], lib);
    }
  }
}
