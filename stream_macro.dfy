/** The dispatcher: the table of games loaded at start-up (configSetup), the
    lookup of the running game (whichGameRunning) and what one write event on
    the watched tip file does (the fsnotify.Write branch of main). The
    directory listing, the file contents and the process list are inputs; the
    events robotgo would send come back as the run of doAction. */
module StreamMacro {
  import opened Wrappers
  import opened GoStrings
  import opened Config
  import opened Actions

  /** How configSetup ends. */
  datatype SetupOutcome =
    | Ready                      // returns nil
    | ListingFailed              // ReadDir failed: the error is returned and main exits
    | SetupCrashed(line: string) // a config line panicked: the program dies

  /** whichGameRunning: the executable name of the first process that is a
      key of the table, or "" when no process is. Being a key is all that
      matters: a game whose key map is empty still counts. */
  function RunningGame(table: Table, processes: seq<string>): string
    decreases |processes|
  {
    if processes == [] then ""
    else if processes[0] in table then processes[0]
    else RunningGame(table, processes[1..])
  }

  /** The running game is the first process that is a key of the table, and
      "" when there is no such process. Since that first index always exists
      (or is |processes|), this decides the result for every input. */
  lemma {:induction false} RunningGameIsFirstKey(table: Table, processes: seq<string>, i: nat)
    requires i <= |processes|
    requires forall j :: 0 <= j < i ==> processes[j] !in table
    requires i < |processes| ==> processes[i] in table
    ensures RunningGame(table, processes) == if i < |processes| then processes[i] else ""
    decreases i
  {
    if i > 0 {
      var rest := processes[1..];
      assert processes[0] !in table;
      assert forall j :: 0 <= j < i - 1 ==> rest[j] == processes[j + 1];
      RunningGameIsFirstKey(table, rest, i - 1);
    } else if processes != [] {
      assert processes[0] in table;
    }
  }

  /** The key map entry for amount, or Go's zero value "" when there is none. */
  function ActionFor(keys: KeyMap, amount: int): string
  {
    if amount in keys then keys[amount] else ""
  }

  /** What one write event on the tip file does. */
  datatype Handled =
    | ReadFailed                // the tip file could not be read: diagnostic only
    | PayloadCrashed            // no ';' in the payload: str[1] out of range, the program dies
    | BadAmount(err: NumError)  // the tip amount did not parse: diagnostic only
    | NoGame                    // the running game is not in the table: diagnostic only
    | Dispatched(game: string, amount: int, run: Run) // doAction on the mapped action

  /** The fsnotify.Write branch of main, for the payload read from the tip
      file (None when the read fails) and the running processes' names. The
      text before the first ';' is the user and is not used. */
  function HandleWrite(table: Table, payload: Option<string>, processes: seq<string>): (h: Handled)
    ensures h.ReadFailed? <==> payload.None?
    ensures h.PayloadCrashed? <==> payload.Some? && ';' !in payload.value
    ensures payload.Some? && ';' in payload.value ==>
              h == HandleTip(table, Split(payload.value, ';')[1], processes)
  {
    match payload
    case None => ReadFailed
    case Some(text) =>
      var str := Split(text, ';');
      if |str| < 2 then PayloadCrashed
      else HandleTip(table, str[1], processes)
  }

  /** The rest of the branch, given the text of the amount field: the
      amount is parsed after trimming, then the running game's action for
      it is performed. */
  function HandleTip(table: Table, field: string, processes: seq<string>): (h: Handled)
    ensures !h.PayloadCrashed? && !h.ReadFailed?
    ensures h.BadAmount? <==> ParseInt32(TrimSpace(field)).Failure?
    ensures h.Dispatched? ==>
              && h.game in table
              && ParseInt32(TrimSpace(field)) == Success(h.amount)
              && InInt32(h.amount)
              && h.game == RunningGame(table, processes)
              && h.run == Interpret(Split(if h.amount in table[h.game] then table[h.game][h.amount] else "", '|'))
    ensures h.NoGame? <==>
              ParseInt32(TrimSpace(field)).Success? && RunningGame(table, processes) !in table
  {
    match ParseInt32(TrimSpace(field))
    case Failure(err) => BadAmount(err)
    case Success(amount) =>
      var game := RunningGame(table, processes);
      if game !in table then NoGame
      else Dispatched(game, amount, Interpret(Split(ActionFor(table[game], amount), '|')))
  }

  /** The tip amount is the text between the first and the second ';', with
      white space trimmed; what comes before the first ';' (the user) and
      after the second is ignored. */
  lemma AmountField(user: string, field: string, rest: string, table: Table, processes: seq<string>)
    requires ';' !in user && ';' !in field
    ensures HandleWrite(table, Some(user + ";" + field), processes) ==
            HandleWrite(table, Some(user + ";" + field + ";" + rest), processes)
  {
    SplitPair(user, ';', field);
    SplitTriple(user, ';', field, rest);
    assert ';' in user + ";" + field;
    assert ';' in user + ";" + field + ";" + rest;
  }

  /** The index of the first process that is a key of the table, or
      |processes| when none is. */
  function FirstKey(table: Table, processes: seq<string>): (i: nat)
    ensures i <= |processes|
    ensures forall j :: 0 <= j < i ==> processes[j] !in table
    ensures i < |processes| ==> processes[i] in table
    decreases |processes|
  {
    if processes == [] || processes[0] in table then 0
    else
      var k := FirstKey(table, processes[1..]);
      assert forall j :: 1 <= j < k + 1 ==> processes[j] == processes[1..][j - 1];
      k + 1
  }

  /** A parsed tip is reported as "No game running" exactly when no running
      process is a configured game and "" is not one either; a configured ""
      catches every tip while no game runs. */
  lemma NoGameExactly(table: Table, field: string, processes: seq<string>)
    requires ParseInt32(TrimSpace(field)).Success?
    ensures HandleTip(table, field, processes) == NoGame <==>
              "" !in table && forall i :: 0 <= i < |processes| ==> processes[i] !in table
  {
    var k := FirstKey(table, processes);
    RunningGameIsFirstKey(table, processes, k);
  }

  /** An amount the running game does not map runs doAction on "", which
      sends nothing and does not crash. */
  lemma UnmappedAmountSendsNothing(table: Table, payload: Option<string>, processes: seq<string>)
    requires HandleWrite(table, payload, processes).Dispatched?
    requires HandleWrite(table, payload, processes).amount !in table[HandleWrite(table, payload, processes).game]
    ensures HandleWrite(table, payload, processes).run == Run([], false)
  {
    assert Split("", '|') == [""];
    assert TokenOutcomes([""]) == [NoStep];
    assert [NoStep][..0] == [];
  }

  lemma FirstRunningGame(table: Table, pre: seq<string>, game: string, post: seq<string>)
    requires game in table
    requires forall i :: 0 <= i < |pre| ==> pre[i] !in table
    ensures RunningGame(table, pre + [game] + post) == game
  {
    var processes := pre + [game] + post;
    assert forall j :: 0 <= j < |pre| ==> processes[j] == pre[j];
    RunningGameIsFirstKey(table, processes, |pre|);
  }

  lemma FormattedIsTrimmed(n: int)
    ensures TrimSpace(FormatDecimal(n)) == FormatDecimal(n)
  {
    var x := FormatDecimal(n);
    assert x != [] ==> !IsSpace(x[0]) && !IsSpace(x[|x| - 1]);
  }

  lemma TipPayload(user: string, n: int)
    requires ';' !in user && InInt32(n)
    ensures Split(user + ";" + FormatDecimal(n), ';') == [user, FormatDecimal(n)]
    ensures ParseInt32(TrimSpace(FormatDecimal(n))) == Success(n)
  {
    var x := FormatDecimal(n);
    assert ';' !in x;
    SplitPair(user, ';', x);
    FormattedIsTrimmed(n);
    ParseFormatRoundTrip(n);
  }

  /** From tip to input events: when the first configured game among the
      running processes maps amount n to the rendering of some steps, a tip
      "user;n" sends exactly those steps. */
  lemma TipPerformsSteps(table: Table, game: string, n: int, steps: seq<Step>,
                         user: string, pre: seq<string>, post: seq<string>)
    requires game in table && n in table[game] && table[game][n] == Render(steps)
    requires forall i :: 0 <= i < |steps| ==> Typable(steps[i])
    requires InInt32(n) && ';' !in user
    requires forall i :: 0 <= i < |pre| ==> pre[i] !in table
    ensures HandleWrite(table, Some(user + ";" + FormatDecimal(n)), pre + [game] + post) ==
              Dispatched(game, n, Run(steps, false))
  {
    TipPayload(user, n);
    FirstRunningGame(table, pre, game, post);
    RenderRoundTrip(steps);
  }

  /** The whole path: a directory holding one ".config" file that maps n to
      the rendering of some steps loads completely, and then a tip "user;n"
      while that game runs sends exactly those steps. */
  lemma ConfiguredTipPerformsSteps(file: string, game: string, n: int, steps: seq<Step>,
                                   user: string, pre: seq<string>, post: seq<string>)
    requires IsConfigFile(file) && '\n' !in game
    requires forall i :: 0 <= i < |steps| ==> Typable(steps[i])
    requires forall i :: 0 <= i < |steps| ==> steps[i] != KeyTap(':')
    requires InInt32(n) && ';' !in user
    requires forall i :: 0 <= i < |pre| ==> pre[i] != game
    ensures var load := LoadFiles(map[], [DirEntry(file, Some(game + "\n" + FormatDecimal(n) + ":" + Render(steps)))]);
            && load == Complete(map[game := map[n := Render(steps)]])
            && HandleWrite(load.table, Some(user + ";" + FormatDecimal(n)), pre + [game] + post) ==
                 Dispatched(game, n, Run(steps, false))
  {
    var action := Render(steps);
    RenderAvoids(steps);
    ConfigRoundTrip(game, n, action);
    LoadOneFile(file, game + "\n" + FormatDecimal(n) + ":" + action, GameConfig(game, map[n := action]));
    var table := map[game := map[n := action]];
    TipPerformsSteps(table, game, n, steps, user, pre, post);
  }

  lemma LoadOneFile(file: string, contents: string, config: GameConfig)
    requires IsConfigFile(file) && ParseConfig(contents) == Success(config)
    ensures LoadFiles(map[], [DirEntry(file, Some(contents))]) == Complete(map[config.name := config.keys])
  {
    var entry := DirEntry(file, Some(contents));
    assert Readable(entry);
    var loads := EntryLoads([entry]);
    assert loads[0] == Loaded(config);
    assert loads[..0] == [] && loads[..1] == loads;
    ApplyFilesStep(map[], loads, 0, map[]);
  }

  /** The dispatcher's state: the table configSetup fills in. */
  class Macro {
    var gameMap: Table

    constructor()
      ensures gameMap == map[]
    {
      gameMap := map[];
    }

    /** configSetup, given the directory listing in ReadDir order (None when
        the listing fails). Each readable ".config" file replaces the entry of
        its game; a panicking line stops the load where it stands. */
    method ConfigSetup(listing: Option<seq<DirEntry>>) returns (outcome: SetupOutcome)
      modifies this
      ensures listing.None? ==> outcome == ListingFailed && gameMap == old(gameMap)
      ensures listing.Some? ==>
                var load := LoadFiles(old(gameMap), listing.value);
                && gameMap == load.table
                && outcome == (if load.Complete? then Ready else SetupCrashed(load.line))
    {
      if listing.None? {
        return ListingFailed;
      }
      var files := listing.value;
      ghost var loads := EntryLoads(files);
      ghost var start := gameMap;
      var i := 0;
      while i < |files|
        invariant 0 <= i <= |files|
        invariant ApplyFiles(start, loads[..i]) == Complete(gameMap)
      {
        var file := files[i];
        LoadFileStep(start, files, loads, i, gameMap, file);
        if !IsConfigFile(file.name) {
          i := i + 1;
          continue;
        }
        match file.contents {
          case None =>
          case Some(text) =>
            var config := ReadConfig(text);
            match config {
              case Failure(line) =>
                return SetupCrashed(line);
              case Success(c) =>
                gameMap := gameMap[c.name := c.keys];
            }
        }
        i := i + 1;
      }
      assert loads[..i] == loads;
      return Ready;
    }

    /** whichGameRunning over the given process list. */
    method WhichGameRunning(processes: seq<string>) returns (game: string)
      ensures game == RunningGame(gameMap, processes)
    {
      var i := 0;
      while i < |processes|
        invariant 0 <= i <= |processes|
        invariant RunningGame(gameMap, processes) == RunningGame(gameMap, processes[i..])
      {
        assert processes[i..][1..] == processes[i + 1..];
        if processes[i] in gameMap {
          return processes[i];
        }
        i := i + 1;
      }
      return "";
    }

    /** The fsnotify.Write branch of main for one event. */
    method OnWrite(payload: Option<string>, processes: seq<string>) returns (h: Handled)
      ensures h == HandleWrite(gameMap, payload, processes)
    {
      if payload.None? {
        return ReadFailed;
      }
      var str := Split(payload.value, ';');
      if |str| < 2 {
        return PayloadCrashed;
      }
      var amount := ParseInt32(TrimSpace(str[1]));
      if amount.Failure? {
        return BadAmount(amount.error);
      }
      var game := WhichGameRunning(processes);
      if game !in gameMap {
        return NoGame;
      }
      var keys := gameMap[game];
      var action := if amount.value in keys then keys[amount.value] else "";
      var run := DoAction(action);
      return Dispatched(game, amount.value, run);
    }
  }
}
