/** The loader's use of modules and VM instances: what it opens, creates, configures and gives back (loader.c). */
module Loading {
  import opened CStrings
  import opened Results
  import opened LoaderNames

  datatype ErrorCode =
    | LoaderSuccess | CannotOpen | SymbolNotFound | InvalidArgument
    | VmCreationFailure | AbiVersionMismatch | InvalidOptionName | InvalidOptionValue

  datatype SetOptionResult = OptionSuccess | OptionInvalidName | OptionInvalidValue | OptionOther(code: int)

  type Handle = nat

  datatype CreateFn = CreateFn(id: nat)

  datatype Vm = Vm(id: nat, abiVersion: int, hasSetOption: bool)

  /** The calls the loader makes to the system, to the module and to the VM. */
  datatype Event =
    | Opened(path: string, handle: Handle)
    | OpenFailed(path: string)
    | LookedUp(handle: Handle, symbol: string, found: Option<CreateFn>)
    | CreateFailed(createFn: CreateFn)
    | Created(createFn: CreateFn, vm: Vm)
    | OptionSet(vm: Vm, name: string, value: string, result: SetOptionResult)
    | Destroyed(vm: Vm)
    | Closed(handle: Handle)

  /** How the system and the modules answer: anything, depending on all that happened before. */
  datatype Env = Env(
    open: (seq<Event>, string) -> Option<Handle>,
    symbol: (seq<Event>, Handle, string) -> Option<CreateFn>,
    create: (seq<Event>, CreateFn) -> Option<Vm>,
    setOption: (seq<Event>, Vm, string, string) -> SetOptionResult,
    openErrorMessage: seq<Event> -> bool,
    messageFits: seq<Event> -> bool)

  /** The event is what the environment answers after the log. */
  predicate Answered(env: Env, log: seq<Event>, e: Event) {
    match e
    case Opened(path, handle) => env.open(log, path) == Some(handle)
    case OpenFailed(path) => env.open(log, path) == None
    case LookedUp(handle, symbol, found) => env.symbol(log, handle, symbol) == found
    case CreateFailed(createFn) => env.create(log, createFn) == None
    case Created(createFn, vm) => env.create(log, createFn) == Some(vm)
    case OptionSet(vm, name, value, result) => env.setOption(log, vm, name, value) == result
    case _ => true
  }

  // ---------- what is held ----------

  /** An open module is held with the create function found in it. */
  datatype Held =
    | Nothing
    | Module(handle: Handle, createFn: Option<CreateFn>)
    | Instance(handle: Handle, vm: Vm)
    | Misuse

  /** What is held after the event: each use must be of what is held, nothing is looked up once a function is
      found, that function creates the VM, which is destroyed before its module is closed, and each is given back
      once. */
  function HeldNext(held: Held, e: Event): Held {
    match (held, e)
    case (Nothing, Opened(_, handle)) => Module(handle, None)
    case (Nothing, OpenFailed(_)) => Nothing
    case (Module(h, None), LookedUp(handle, _, found)) => if handle == h then Module(h, found) else Misuse
    case (Module(_, Some(f)), CreateFailed(createFn)) => if createFn == f then held else Misuse
    case (Module(h, Some(f)), Created(createFn, vm)) => if createFn == f then Instance(h, vm) else Misuse
    case (Module(h, _), Closed(handle)) => if handle == h then Nothing else Misuse
    case (Instance(_, v), OptionSet(vm, _, _, _)) => if vm == v then held else Misuse
    case (Instance(h, v), Destroyed(vm)) => if vm == v then Module(h, None) else Misuse
    case _ => Misuse
  }

  function HeldAfter(held: Held, events: seq<Event>): Held {
    if events == [] then held else HeldNext(HeldAfter(held, events[..|events| - 1]), events[|events| - 1])
  }

  /** The calls of set_option. */
  function OptionSets(events: seq<Event>): seq<Event> {
    if events == [] then [] else
      OptionSets(events[..|events| - 1]) +
        if events[|events| - 1].OptionSet? then [events[|events| - 1]] else []
  }

  lemma Noted(events: seq<Event>, e: Event)
    ensures HeldAfter(Nothing, events + [e]) == HeldNext(HeldAfter(Nothing, events), e)
    ensures OptionSets(events + [e]) == OptionSets(events) + if e.OptionSet? then [e] else []
  {
    assert (events + [e])[..|events|] == events;
  }

  lemma NotedTwice(events: seq<Event>, d: Event, e: Event)
    ensures HeldAfter(Nothing, events + [d] + [e]) == HeldNext(HeldNext(HeldAfter(Nothing, events), d), e)
    ensures !d.OptionSet? && !e.OptionSet? ==> OptionSets(events + [d] + [e]) == OptionSets(events)
  {
    hide HeldAfter, OptionSets;
    Noted(events, d);
    Noted(events + [d], e);
  }

  lemma NothingHappened()
    ensures HeldAfter(Nothing, []) == Nothing && OptionSets([]) == []
  {
  }

  // ---------- loading ----------

  /** The symbols looked up: the mangled name, and the generic one unless the first was found. */
  function LookUps(filename: string, handle: Handle, createFn: Option<CreateFn>, byName: bool): seq<Event> {
    if byName then [LookedUp(handle, PREFIX + BaseName(filename), createFn)]
    else [LookedUp(handle, PREFIX + BaseName(filename), None)] + [LookedUp(handle, "qrvmc_create", createFn)]
  }

  /** All that loading does, by its outcome. */
  function LoadEvents(ec: ErrorCode, filename: string, handle: Handle, createFn: Option<CreateFn>, byName: bool)
    : seq<Event>
  {
    match ec
    case InvalidArgument => []
    case CannotOpen => [OpenFailed(filename)]
    case LoaderSuccess => [Opened(filename, handle)] + LookUps(filename, handle, createFn, byName)
    case _ => [Opened(filename, handle)] + LookUps(filename, handle, None, false) + [Closed(handle)]
  }

  /** The errors which a single event explains, and the one for which nothing is done. */
  ghost predicate Reasons(events: seq<Event>, ec: ErrorCode) {
    && (ec == InvalidArgument <==> events == [])
    && (ec == CannotOpen <==> exists i :: 0 <= i < |events| && events[i].OpenFailed?)
    && (ec == VmCreationFailure <==> exists i :: 0 <= i < |events| && events[i].CreateFailed?)
  }

  /** Which VM was created, if any, decides the outcome. */
  ghost predicate CreationDecides(events: seq<Event>, vm: Option<Vm>, ec: ErrorCode) {
    && (forall i :: 0 <= i < |events| && events[i].Created? ==>
          if events[i].vm.abiVersion == ABI_VERSION then vm == Some(events[i].vm)
          else vm == None && ec == AbiVersionMismatch)
    && ((forall i :: 0 <= i < |events| ==> !events[i].Created?) ==>
          vm == None && ec in {InvalidArgument, CannotOpen, SymbolNotFound, VmCreationFailure})
  }

  ghost predicate OpensOnly(events: seq<Event>, path: string) {
    forall i :: 0 <= i < |events| && events[i].Opened? ==> events[i].path == path
  }

  /** No create function was called. */
  ghost predicate NotCreated(events: seq<Event>) {
    forall i :: 0 <= i < |events| ==> !events[i].Created? && !events[i].CreateFailed?
  }

  lemma NothingLoaded(path: string)
    ensures HeldAfter(Nothing, []) == Nothing && OptionSets([]) == [] && OpensOnly([], path)
    ensures CreationDecides([], None, InvalidArgument) && Reasons([], InvalidArgument)
  {
  }

  lemma NotCreatedThen(before: seq<Event>, d: Event, e: Event)
    requires NotCreated(before) && Reasons(before, LoaderSuccess) && d.CreateFailed? && e.Closed?
    ensures before + [d, e] == before + [d] + [e]
    ensures CreationDecides(before + [d, e], None, VmCreationFailure) && Reasons(before + [d, e], VmCreationFailure)
  {
    var events := before + [d, e];
    assert forall i :: 0 <= i < |before| ==> events[i] == before[i];
    assert events[|before|].CreateFailed?;
  }

  lemma CreatedThen(before: seq<Event>, created: Event, d: Event, e: Event)
    requires NotCreated(before) && Reasons(before, LoaderSuccess) && created.Created? && d.Destroyed? && e.Closed?
    ensures before + [created, d, e] == before + [created] + [d] + [e]
    ensures
      if created.vm.abiVersion == ABI_VERSION then
        && CreationDecides(before + [created], Some(created.vm), LoaderSuccess)
        && Reasons(before + [created], LoaderSuccess)
      else
        && CreationDecides(before + [created, d, e], None, AbiVersionMismatch)
        && Reasons(before + [created, d, e], AbiVersionMismatch)
  {
    var events := if created.vm.abiVersion == ABI_VERSION then before + [created] else before + [created, d, e];
    assert forall i :: 0 <= i < |before| ==> events[i] == before[i];
    assert events[|before|] == created;
  }

  lemma OpensOnlyMore(before: seq<Event>, after: seq<Event>, path: string)
    requires OpensOnly(before, path) && forall i :: 0 <= i < |after| ==> !after[i].Opened?
    ensures OpensOnly(before + after, path)
  {
  }

  lemma LoadEventsHold(ec: ErrorCode, filename: string, handle: Handle, createFn: Option<CreateFn>, byName: bool)
    requires ec in {LoaderSuccess, CannotOpen, SymbolNotFound, InvalidArgument}
    ensures var events := LoadEvents(ec, filename, handle, createFn, byName);
      && HeldAfter(Nothing, events) == (if ec == LoaderSuccess then Module(handle, createFn) else Nothing)
      && OptionSets(events) == [] && NotCreated(events) && OpensOnly(events, filename)
      && Reasons(events, ec) && (ec != LoaderSuccess ==> CreationDecides(events, None, ec))
  {
    hide BaseName, HeldAfter, OptionSets;
    NothingHappened();
    match ec {
      case InvalidArgument =>
      case CannotOpen =>
        Noted([], OpenFailed(filename));
        assert [] + [OpenFailed(filename)] == [OpenFailed(filename)];
        assert [OpenFailed(filename)][0].OpenFailed?;
      case LoaderSuccess =>
        OpeningHolds(filename, handle, createFn, byName);
      case _ =>
        OpeningHolds(filename, handle, None, false);
        Noted([Opened(filename, handle)] + LookUps(filename, handle, None, false), Closed(handle));
    }
  }

  /** The log as loading extends it, event by event. */
  lemma LoggedByLoading(log: seq<Event>, filename: string, handle: Handle, createFn: Option<CreateFn>, byName: bool)
    ensures log + LoadEvents(InvalidArgument, filename, handle, createFn, byName) == log
    ensures log + LoadEvents(CannotOpen, filename, handle, createFn, byName) == log + [OpenFailed(filename)]
    ensures log + LoadEvents(LoaderSuccess, filename, handle, createFn, byName) ==
      log + [Opened(filename, handle)] + LookUps(filename, handle, createFn, byName)
    ensures log + LoadEvents(SymbolNotFound, filename, handle, createFn, byName) ==
      log + [Opened(filename, handle)] + LookUps(filename, handle, None, false) + [Closed(handle)]
  {
    hide LookUps;
  }

  lemma OpeningHolds(filename: string, handle: Handle, createFn: Option<CreateFn>, byName: bool)
    ensures var events := [Opened(filename, handle)] + LookUps(filename, handle, createFn, byName);
      HeldAfter(Nothing, events) == Module(handle, createFn) && OptionSets(events) == []
  {
    hide BaseName, HeldAfter, OptionSets;
    NothingHappened();
    var e0 := [Opened(filename, handle)];
    Noted([], Opened(filename, handle));
    assert [] + e0 == e0;
    var l := LookedUp(handle, PREFIX + BaseName(filename), if byName then createFn else None);
    Noted(e0, l);
    Noted(e0 + [l], LookedUp(handle, "qrvmc_create", createFn));
    assert !byName ==>
      e0 + LookUps(filename, handle, createFn, byName) == e0 + [l] + [LookedUp(handle, "qrvmc_create", createFn)];
  }

  // ---------- configuring ----------

  /** The error for what set_option has returned. */
  function ErrorFor(result: SetOptionResult): ErrorCode {
    match result
    case OptionSuccess => LoaderSuccess
    case OptionInvalidName => InvalidOptionName
    case _ => InvalidOptionValue
  }

  /** The settings were passed to the VM in order, up to the first it rejected, which decides the error; a VM
      without set_option rejects the first setting without being called. */
  ghost predicate Tried(vm: Vm, tried: seq<Event>, settings: seq<Setting>, ec: ErrorCode) {
    && |tried| <= |settings|
    && (forall i :: 0 <= i < |tried| ==>
          && tried[i].OptionSet?
          && tried[i] == OptionSet(vm, settings[i].0, settings[i].1, tried[i].result)
          && (i < |tried| - 1 ==> tried[i].result == OptionSuccess))
    && if settings == [] then ec == LoaderSuccess
       else if !vm.hasSetOption then tried == [] && ec == InvalidOptionName
       else
         && tried != []
         && var last := tried[|tried| - 1].result;
         && (last == OptionSuccess ==> ec == LoaderSuccess && |tried| == |settings|)
         && (last == OptionInvalidName ==> ec == InvalidOptionName)
         && (last == OptionInvalidValue || last.OptionOther? ==> ec == InvalidOptionValue)
  }

  /** The options leave the VM held, and are all the calls of set_option. */
  lemma {:induction false} OptionsHold(events: seq<Event>, tried: seq<Event>, vm: Vm, handle: Handle)
    requires HeldAfter(Nothing, events) == Instance(handle, vm) && OptionSets(events) == []
    requires forall i :: 0 <= i < |tried| ==> tried[i].OptionSet? && tried[i].vm == vm
    ensures HeldAfter(Nothing, events + tried) == Instance(handle, vm) && OptionSets(events + tried) == tried
    decreases |tried|
  {
    hide HeldAfter, OptionSets;
    if tried == [] {
      assert events + tried == events;
    } else {
      var (most, last) := (tried[..|tried| - 1], tried[|tried| - 1]);
      OptionsHold(events, most, vm, handle);
      Noted(events + most, last);
      assert events + tried == events + most + [last];
      assert tried == most + [last];
    }
  }

  /** The configuration's path is what is opened, and its settings are all that the VM created is given. */
  ghost predicate Configured(config: string, events: seq<Event>, ec: ErrorCode) {
    var (path, options) := Cut(config, ',');
    && Reasons(events, ec)
    && OpensOnly(events, path)
    && (forall i :: 0 <= i < |events| && events[i].Created? ==>
          if events[i].vm.abiVersion == ABI_VERSION
          then Tried(events[i].vm, OptionSets(events), Settings(options), ec)
          else OptionSets(events) == [] && ec == AbiVersionMismatch)
    && ((forall i :: 0 <= i < |events| ==> !events[i].Created?) ==>
          OptionSets(events) == [] && ec in {InvalidArgument, CannotOpen, SymbolNotFound, VmCreationFailure})
  }

  /** The whole round trip: a configuration written from a path and options, if it fits, opens that path and gives
      the VM exactly those options, in order, all of them on success and else up to the first it rejects. */
  lemma WrittenConfigured(path: string, options: seq<OptionText>, events: seq<Event>, ec: ErrorCode)
    requires ',' !in path && forall i :: 0 <= i < |options| ==> Plain(options[i])
    requires Configured(Written(path, options), events, ec)
    ensures OpensOnly(events, path)
    ensures forall i :: 0 <= i < |events| && events[i].Created? && events[i].vm.abiVersion == ABI_VERSION ==>
      Tried(events[i].vm, OptionSets(events), Meanings(Told(options)), ec)
    ensures ec == LoaderSuccess ==>
      var given, settings := OptionSets(events), Meanings(Told(options));
      |given| == |settings| && forall i :: 0 <= i < |given| ==>
        given[i].OptionSet? && (given[i].name, given[i].value) == settings[i] && given[i].result == OptionSuccess
  {
    hide OptionSets, Settings, Before, After, Told, Meanings, Tried, Reasons, OpensOnly, Plain, Written;
    ParseWritten(path, options);
    if ec == LoaderSuccess {
      var i :| 0 <= i < |events| && events[i].Created?;
      AllTaken(events[i].vm, OptionSets(events), Meanings(Told(options)));
    }
  }

  lemma AllTaken(vm: Vm, given: seq<Event>, settings: seq<Setting>)
    requires Tried(vm, given, settings, LoaderSuccess)
    ensures |given| == |settings| && forall i :: 0 <= i < |given| ==>
      given[i].OptionSet? && (given[i].name, given[i].value) == settings[i] && given[i].result == OptionSuccess
  {
  }

  lemma NotConfigured(config: string, events: seq<Event>, ec: ErrorCode)
    requires ec != LoaderSuccess && OptionSets(events) == []
    requires CreationDecides(events, None, ec) && Reasons(events, ec)
    requires OpensOnly(events, Cut(config, ',').0)
    ensures Configured(config, events, ec)
  {
    hide OptionSets, Tried, Settings, Before, After;
  }

  lemma ConfiguredAfter(config: string, events: seq<Event>, tried: seq<Event>, vm: Vm, handle: Handle, ec: ErrorCode)
    requires CreationDecides(events, Some(vm), LoaderSuccess) && Reasons(events, LoaderSuccess)
    requires ec in {LoaderSuccess, InvalidOptionName, InvalidOptionValue} && OptionSets(events + tried) == tried
    requires OpensOnly(events, Cut(config, ',').0)
    requires forall i :: 0 <= i < |tried| ==> tried[i].OptionSet?
    requires Tried(vm, tried, Settings(Cut(config, ',').1), ec)
    ensures Configured(config, events + tried, ec)
    ensures OptionSets(events + tried + [Destroyed(vm)] + [Closed(handle)]) == tried ==>
      Configured(config, events + tried + [Destroyed(vm)] + [Closed(handle)], ec)
  {
    hide OptionSets, Tried, Settings, Before, After;
    var k :| 0 <= k < |events| && events[k].Created?;
    assert (events + tried)[k] == events[k];
    assert (events + tried + [Destroyed(vm)] + [Closed(handle)])[k] == events[k];
  }

  /** The first settings, as many as were tried, were all accepted. */
  ghost predicate Taken(vm: Vm, tried: seq<Event>, settings: seq<Setting>) {
    && |tried| <= |settings| && (tried != [] ==> vm.hasSetOption)
    && forall i :: 0 <= i < |tried| ==> tried[i] == OptionSet(vm, settings[i].0, settings[i].1, OptionSuccess)
  }

  lemma NothingTaken(vm: Vm, settings: seq<Setting>)
    ensures Taken(vm, [], settings)
  {
  }

  lemma TakenTried(vm: Vm, tried: seq<Event>, settings: seq<Setting>)
    requires Taken(vm, tried, settings)
    ensures |tried| == |settings| ==> Tried(vm, tried, settings, LoaderSuccess)
    ensures |tried| < |settings| && !vm.hasSetOption ==> Tried(vm, tried, settings, InvalidOptionName)
    ensures forall i :: 0 <= i < |tried| ==> tried[i].OptionSet? && tried[i].vm == vm
  {
  }

  lemma TakenNext(vm: Vm, tried: seq<Event>, settings: seq<Setting>, result: SetOptionResult)
    requires Taken(vm, tried, settings) && |tried| < |settings| && vm.hasSetOption
    ensures var (name, value) := settings[|tried|];
      var tried' := tried + [OptionSet(vm, name, value, result)];
      && (result == OptionSuccess ==> Taken(vm, tried', settings))
      && (result != OptionSuccess ==> Tried(vm, tried', settings, ErrorFor(result)))
      && forall i :: 0 <= i < |tried'| ==> tried'[i].OptionSet? && tried'[i].vm == vm
  {
  }

  class Loader {
    const env: Env
    var log: seq<Event>
    /** Whether last_error_msg is set. */
    var hasErrorMessage: bool

    constructor (env: Env)
      ensures this.env == env && log == [] && !hasErrorMessage
    {
      this.env, log, hasErrorMessage := env, [], false;
    }

    /** Every event logged is what the environment answered then. */
    ghost predicate Genuine()
      reads this`log
    {
      forall i :: 0 <= i < |log| ==> Answered(env, log[..i], log[i])
    }

    method Note(e: Event)
      requires Genuine() && Answered(env, log, e)
      modifies this`log
      ensures Genuine() && log == old(log) + [e]
    {
      ghost var before := log;
      log := log + [e];
      assert forall i :: 0 <= i < |before| ==> log[..i] == before[..i];
      assert log[..|before|] == before;
    }

    /** The message is set only if it fits the buffer once formatted. */
    method SetError(code: ErrorCode) returns (ec: ErrorCode)
      modifies this`hasErrorMessage
      ensures ec == code
    {
      if env.messageFits(log) {
        hasErrorMessage := true;
      }
      ec := code;
    }

    /** Opens the module and finds its create function, closing the module when it has none. */
    method LoadInternal(filename: Option<cstring>)
      returns (createFn: Option<CreateFn>, ec: ErrorCode, handle: Handle, ghost byName: bool)
      requires Genuine()
      modifies this
      ensures Genuine()
      ensures createFn.Some? <==> ec == LoaderSuccess
      ensures ec in {LoaderSuccess, CannotOpen, SymbolNotFound, InvalidArgument}
      ensures ec == InvalidArgument <==>
        filename.None? || |filename.value| == 0 || |filename.value| >= 4096
      ensures log == old(log) +
        if filename.None? then [] else LoadEvents(ec, filename.value, handle, createFn, byName)
      ensures ec == LoaderSuccess ==> !hasErrorMessage
    {
      hide LookUps, BaseName, Genuine, LoadEvents;
      hasErrorMessage := false;
      createFn, handle, byName := None, 0, true;
      ghost var before := log;
      if filename.None? || |filename.value| == 0 || |filename.value| >= PATH_MAX_LENGTH {
        ec := SetError(InvalidArgument);
        if filename.Some? {
          LoggedByLoading(before, filename.value, handle, createFn, byName);
        }
        return;
      }
      LoggedByLoading(before, filename.value, handle, createFn, byName);
      var result := env.open(log, filename.value);
      if result.None? {
        Note(OpenFailed(filename.value));
        hasErrorMessage := env.openErrorMessage(log);
        ec := CannotOpen;
        if !hasErrorMessage {
          ec := SetError(CannotOpen);
        }
        return;
      }
      handle := result.value;
      Note(Opened(filename.value, handle));
      createFn, byName := FindCreateFn(handle, filename.value);
      ec := LoaderSuccess;
      if createFn.None? {
        Note(Closed(handle));
        ec := SetError(SymbolNotFound);
      }
      LoggedByLoading(before, filename.value, handle, createFn, byName);
    }

    /** Looks for the function with the mangled name, then for the one with the generic name. */
    method FindCreateFn(handle: Handle, filename: cstring) returns (createFn: Option<CreateFn>, ghost byName: bool)
      requires Genuine() && |filename| < PATH_MAX_LENGTH
      modifies this`log
      ensures Genuine() && (byName ==> createFn.Some?)
      ensures log == old(log) + LookUps(filename, handle, createFn, byName)
      ensures |log| > |old(log)| && var first := log[|old(log)|];
        && first.LookedUp? && first.handle == handle && first.symbol == "qrvmc_create_" + BaseName(filename)
        && if first.found.Some? then |log| == |old(log)| + 1 && createFn == first.found
           else |log| == |old(log)| + 2 && log[|old(log)| + 1] == LookedUp(handle, "qrvmc_create", createFn)
    {
      hide BaseName;
      var buffer := CreateFunctionName(filename);
      var name := ReadString(buffer, 0);
      createFn := LookUp(handle, name);
      byName := createFn.Some?;
      if createFn.None? {
        createFn := LookUp(handle, "qrvmc_create");
      }
    }

    method LookUp(handle: Handle, symbol: string) returns (createFn: Option<CreateFn>)
      requires Genuine()
      modifies this`log
      ensures Genuine() && log == old(log) + [LookedUp(handle, symbol, createFn)]
    {
      createFn := env.symbol(log, handle, symbol);
      Note(LookedUp(handle, symbol, createFn));
    }

    /** On success the module stays open and the VM has this library's ABI version; otherwise nothing is held. */
    method LoadAndCreateInternal(filename: Option<cstring>)
      returns (vm: Option<Vm>, ec: ErrorCode, handle: Handle, ghost events: seq<Event>)
      requires Genuine()
      modifies this
      ensures Genuine() && log == old(log) + events && OptionSets(events) == []
      ensures vm.Some? <==> ec == LoaderSuccess
      ensures HeldAfter(Nothing, events) == if vm.Some? then Instance(handle, vm.value) else Nothing
      ensures vm.Some? ==> !hasErrorMessage && vm.value.abiVersion == 2
      ensures ec == InvalidArgument <==>
        filename.None? || |filename.value| == 0 || |filename.value| >= 4096
      ensures OpensOnly(events, if filename.Some? then filename.value else "")
      ensures CreationDecides(events, vm, ec) && Reasons(events, ec)
    {
      hide BaseName, HeldAfter, OptionSets, LookUps, Genuine, LoadEvents;
      hide CreationDecides, Reasons, OpensOnly, NotCreated;
      var createFn;
      ghost var byName;
      createFn, ec, handle, byName := LoadInternal(filename);
      vm, events := None, [];
      if filename.Some? {
        events := LoadEvents(ec, filename.value, handle, createFn, byName);
        LoadEventsHold(ec, filename.value, handle, createFn, byName);
      } else {
        NothingLoaded("");
      }
      if createFn.None? {
        return;
      }
      ghost var after;
      vm, ec, after := Create(createFn.value, handle, events);
      OpensOnlyMore(events, after, filename.value);
      events := events + after;
    }

    /** The part after a function was found. */
    method Create(createFn: CreateFn, handle: Handle, ghost before: seq<Event>)
      returns (vm: Option<Vm>, ec: ErrorCode, ghost after: seq<Event>)
      requires Genuine() && HeldAfter(Nothing, before) == Module(handle, Some(createFn)) && OptionSets(before) == []
      requires NotCreated(before) && Reasons(before, LoaderSuccess)
      modifies this
      ensures Genuine() && log == old(log) + after && OptionSets(before + after) == []
      ensures vm.Some? <==> ec == LoaderSuccess
      ensures ec in {LoaderSuccess, VmCreationFailure, AbiVersionMismatch}
      ensures HeldAfter(Nothing, before + after) == if vm.Some? then Instance(handle, vm.value) else Nothing
      ensures vm.Some? ==> hasErrorMessage == old(hasErrorMessage) && vm.value.abiVersion == 2
      ensures forall i :: 0 <= i < |after| ==> !after[i].Opened?
      ensures CreationDecides(before + after, vm, ec) && Reasons(before + after, ec)
    {
      hide HeldAfter, OptionSets, Genuine, CreationDecides, Reasons, NotCreated;
      ec := LoaderSuccess;
      vm := env.create(log, createFn);
      if vm.None? {
        Note(CreateFailed(createFn));
        ec := SetError(VmCreationFailure);
        Note(Closed(handle));
        after := [CreateFailed(createFn), Closed(handle)];
        NotedTwice(before, CreateFailed(createFn), Closed(handle));
        NotCreatedThen(before, CreateFailed(createFn), Closed(handle));
        return;
      }
      var created := Created(createFn, vm.value);
      Note(created);
      Noted(before, created);
      CreatedThen(before, created, Destroyed(vm.value), Closed(handle));
      after := [created];
      if vm.value.abiVersion != ABI_VERSION {
        ec := SetError(AbiVersionMismatch);
        Note(Destroyed(vm.value));
        Note(Closed(handle));
        NotedTwice(before + [created], Destroyed(vm.value), Closed(handle));
        after := [created, Destroyed(vm.value), Closed(handle)];
        vm := None;
      }
    }

    /** The loop over the options, which the configuration's buffer holds from the given position on. */
    method ApplyOptions(vm: Vm, buf: array<char>, start: nat) returns (ec: ErrorCode, ghost tried: seq<Event>)
      requires Genuine() && start <= buf.Length && Terminated(buf[..], start)
      modifies this, buf
      ensures Genuine() && log == old(log) + tried
      ensures Tried(vm, tried, Settings(old(CStr(buf[..], start))), ec)
      ensures forall i :: 0 <= i < |tried| ==> tried[i].OptionSet? && tried[i].vm == vm
      ensures ec in {LoaderSuccess, InvalidOptionName, InvalidOptionValue}
      ensures ec == LoaderSuccess ==> hasErrorMessage == old(hasErrorMessage)
    {
      hide Settings, Terminated, CStr, Genuine, Taken, Tried;
      ghost var all := Settings(CStr(buf[..], start));
      tried := [];
      NothingTaken(vm, all);
      var options: nat := start;
      while true
        invariant options <= buf.Length && Terminated(buf[..], options)
        invariant |tried| <= |all| && all[|tried|..] == Settings(CStr(buf[..], options))
        invariant Taken(vm, tried, all)
        invariant Genuine() && log == old(log) + tried && hasErrorMessage == old(hasErrorMessage)
        decreases |all| - |tried|
      {
        SettingsNext(CStr(buf[..], options));
        TakenTried(vm, tried, all);
        var length := StrLen(buf, options);
        if length == 0 {
          ec := LoaderSuccess;
          return;
        }
        assert all[|tried|..] != [];
        if !vm.hasSetOption {
          ec := SetError(InvalidOptionName);
          return;
        }
        var name, value;
        name, value, options := NextOption(buf, options);
        var result := env.setOption(log, vm, name, value);
        Note(OptionSet(vm, name, value, result));
        assert (name, value) == all[|tried|..][0] == all[|tried|];
        TakenNext(vm, tried, all, result);
        tried := tried + [OptionSet(vm, name, value, result)];
        if result != OptionSuccess {
          ec := SetError(ErrorFor(result));
          return;
        }
        assert all[|tried|..] == all[|tried| - 1..][1..];
      }
    }

    /** Loads, creates and configures a VM; whatever fails, nothing stays held. */
    method LoadAndConfigure(config: Option<cstring>)
      returns (vm: Option<Vm>, ec: ErrorCode, handle: Handle, ghost events: seq<Event>)
      requires Genuine()
      modifies this
      ensures Genuine() && log == old(log) + events
      ensures vm.Some? <==> ec == LoaderSuccess
      ensures HeldAfter(Nothing, events) == if vm.Some? then Instance(handle, vm.value) else Nothing
      ensures vm.Some? ==> !hasErrorMessage && vm.value.abiVersion == 2
      ensures ec == InvalidArgument <==>
        config.None? || |config.value| >= 4096 || Cut(config.value, ',').0 == ""
      ensures config.None? || |config.value| >= 4096 ==> events == []
      ensures config.Some? ==> Configured(config.value, events, ec)
    {
      hide HeldAfter, OptionSets, Settings, CStr, Before, After, Tried, Genuine, Terminated;
      hide Configured, CreationDecides, Reasons, OpensOnly;
      vm, handle, events := None, 0, [];
      NothingHappened();
      if config.None? {
        ec := SetError(InvalidArgument);
        return;
      }
      var fits, buf, path, options := TakePath(config.value);
      if !fits {
        ec := SetError(InvalidArgument);
        NothingLoaded(Cut(config.value, ',').0);
        NotConfigured(config.value, events, ec);
        return;
      }
      vm, ec, handle, events := LoadAndCreateInternal(Some(path));
      if vm.None? {
        NotConfigured(config.value, events, ec);
        return;
      }
      ghost var tried;
      ec, tried := ApplyOptions(vm.value, buf, options);
      OptionsHold(events, tried, vm.value, handle);
      ConfiguredAfter(config.value, events, tried, vm.value, handle, ec);
      events := events + tried;
      if ec != LoaderSuccess {
        Note(Destroyed(vm.value));
        Note(Closed(handle));
        NotedTwice(events, Destroyed(vm.value), Closed(handle));
        events := events + [Destroyed(vm.value)] + [Closed(handle)];
        vm := None;
      }
    }
  }

  /** Copies the configuration, if it fits the buffer, and takes the path from the copy. */
  method TakePath(config: cstring) returns (fits: bool, buf: array<char>, path: cstring, options: nat)
    ensures fits <==> |config| < PATH_MAX_LENGTH
    ensures fresh(buf) && options <= buf.Length
    ensures fits ==> Terminated(buf[..], options) && (path, CStr(buf[..], options)) == Cut(config, ',')
  {
    hide CStr, Before, After;
    buf, path, options := new char[PATH_MAX_LENGTH](_ => NUL), "", 0;
    var code := StrCpySx(buf, 0, PATH_MAX_LENGTH, config);
    fits := code == 0;
    if fits {
      options := GetToken(buf, 0, ',');
      path := ReadString(buf, 0);
    }
  }

  /** Takes the next option from the buffer, and its name from it. */
  method NextOption(buf: array<char>, options: nat) returns (name: cstring, value: cstring, rest: nat)
    requires options <= buf.Length && Terminated(buf[..], options)
    modifies buf
    ensures rest <= buf.Length && Terminated(buf[..], rest)
    ensures var (option, r) := Cut(old(CStr(buf[..], options)), ',');
      (name, value) == Cut(option, '=') && CStr(buf[..], rest) == r
  {
    hide Before, After;
    rest := GetToken(buf, options, ',');
    ghost var end: nat :| Ends(buf[..], rest, end);
    ghost var after := buf[..][rest..];
    var valuePos := GetToken(buf, options, '=');
    assert Ends(buf[..], rest, end);
    assert buf[..][rest..] == after;
    name := ReadString(buf, options);
    value := ReadString(buf, valuePos);
  }

  method ReadString(buf: array<char>, p: nat) returns (s: cstring)
    requires Terminated(buf[..], p)
    ensures s == CStr(buf[..], p)
  {
    var len := StrLen(buf, p);
    s := buf[p..p + len];
  }
}
