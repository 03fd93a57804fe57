/** Loading of the `.config` files into the table game -> tip amount -> action
    string. A config file's first line is the game's executable name; every
    later line is `<amount>:<action>`, split on every ':' with field 1 kept.
    A line whose amount parses but which has no ':' makes Go index past the end
    of the split result, which panics: the model returns that as a failure
    carrying the offending line. */
module Config {
  import opened Wrappers
  import opened GoStrings

  /** tip amount -> action string, for one game */
  type KeyMap = map<int, string>

  /** game executable name -> its key map */
  type Table = map<string, KeyMap>

  /** What one mapping line does to the key map being built. */
  datatype LineEffect =
    | Skipped(err: NumError)             // the amount did not parse: diagnostic, line ignored
    | Entry(amount: int, action: string)  // keyMap[amount] = action
    | Panics(line: string)               // tmp[1] out of range: the program dies

  /** One mapping line, as the loop body of configSetup treats it. */
  function ParseLine(line: string): (e: LineEffect)
    ensures e.Entry? ==> InInt32(e.amount) && ':' !in e.action
  {
    var tmp := Split(line, ':');
    match ParseInt32(tmp[0])
    case Failure(err) => Skipped(err)
    case Success(value) =>
      if |tmp| < 2 then Panics(line) else Entry(value, tmp[1])
  }

  /** What a line does, in terms of its text: it is skipped exactly when the
      text before its first ':' is not a signed 32-bit decimal; it panics
      exactly when it is such a decimal with no ':' at all; otherwise it maps
      that amount to the text between its first and second ':'. */
  lemma ParseLineCases(line: string)
    ensures ParseLine(line).Skipped? <==> ParseInt32(line[..IndexOf(line, ':')]).Failure?
    ensures ParseLine(line).Panics? <==> ':' !in line && ParseInt32(line).Success?
    ensures ParseLine(line).Panics? ==> ParseLine(line).line == line
    ensures ParseLine(line).Entry? ==>
              && ':' in line
              && ParseInt32(line[..IndexOf(line, ':')]) == Success(ParseLine(line).amount)
              && var rest := line[IndexOf(line, ':') + 1..];
                 ParseLine(line).action == rest[..IndexOf(rest, ':')]
  {
    var i := IndexOf(line, ':');
    if ':' in line {
      assert line == line[..i] + [':'] + line[i + 1..];
      SplitAfterField(line[..i], ':', line[i + 1..]);
    }
  }

  lemma ParseLineOfFields(line: string, amount: string, action: string, rest: seq<string>, n: int)
    requires Split(line, ':') == [amount, action] + rest
    requires ParseInt32(amount) == Success(n)
    ensures ParseLine(line) == Entry(n, action)
  {
  }

  /** `<n>:<a>` with a free of ':' loads as n -> a, and so does
      `<n>:<a>:<b>`: the text after the second ':' is dropped. */
  lemma LineRoundTrip(n: int, a: string, b: string)
    requires InInt32(n)
    requires ':' !in a
    ensures ParseLine(FormatDecimal(n) + ":" + a) == Entry(n, a)
    ensures ParseLine(FormatDecimal(n) + ":" + a + ":" + b) == Entry(n, a)
  {
    var x := FormatDecimal(n);
    assert ':' !in x;
    ParseFormatRoundTrip(n);
    SplitPair(x, ':', a);
    assert [x, a] == [x, a] + [];
    ParseLineOfFields(x + ":" + a, x, a, [], n);
    SplitTriple(x, ':', a, b);
    ParseLineOfFields(x + ":" + a + ":" + b, x, a, Split(b, ':'), n);
  }

  /** The effect of each mapping line, in order. */
  function LineEffects(lines: seq<string>): (effects: seq<LineEffect>)
    ensures |effects| == |lines|
    ensures forall i :: 0 <= i < |lines| ==> effects[i] == ParseLine(lines[i])
  {
    seq(|lines|, i requires 0 <= i < |lines| => ParseLine(lines[i]))
  }

  /** The key map obtained by applying line effects in order to an empty map;
      the first panic stops the load. */
  function ApplyLines(effects: seq<LineEffect>): Result<KeyMap, string>
    decreases |effects|
  {
    if effects == [] then Success(map[])
    else
      var front := effects[..|effects| - 1];
      match ApplyLines(front)
      case Failure(l) => Failure(l)
      case Success(m) =>
        match effects[|effects| - 1]
        case Skipped(_) => Success(m)
        case Entry(n, a) => Success(m[n := a])
        case Panics(l) => Failure(l)
  }

  /** Every entry of the key map comes from some Entry effect. */
  lemma {:induction false} ApplyLinesEntries(effects: seq<LineEffect>, n: int)
    requires ApplyLines(effects).Success? && n in ApplyLines(effects).value
    ensures exists i :: 0 <= i < |effects| && effects[i] == Entry(n, ApplyLines(effects).value[n])
    decreases |effects|
  {
    var front := effects[..|effects| - 1];
    var last := effects[|effects| - 1];
    if !(last.Entry? && last.amount == n) {
      ApplyLinesEntries(front, n);
      var i :| 0 <= i < |front| && front[i] == Entry(n, ApplyLines(front).value[n]);
      assert effects[i] == front[i];
    }
  }

  /** The key map built from a file's mapping lines (every line after the first). */
  function KeyMapOf(lines: seq<string>): Result<KeyMap, string>
  {
    ApplyLines(LineEffects(lines))
  }

  /** Every amount in a loaded key map is a signed 32-bit value, and no
      action contains ':' (it is one field of a line split on ':'). */
  lemma KeyMapOfBounds(lines: seq<string>, n: int)
    requires KeyMapOf(lines).Success? && n in KeyMapOf(lines).value
    ensures InInt32(n) && ':' !in KeyMapOf(lines).value[n]
  {
    var effects := LineEffects(lines);
    ApplyLinesEntries(effects, n);
    var i :| 0 <= i < |effects| && effects[i] == Entry(n, KeyMapOf(lines).value[n]);
    assert ParseLine(lines[i]) == Entry(n, KeyMapOf(lines).value[n]);
  }

  /** Once a panic has stopped the load, later lines change nothing. */
  lemma {:induction false} ApplyLinesStaysFailed(effects: seq<LineEffect>, more: seq<LineEffect>)
    requires ApplyLines(effects).Failure?
    ensures ApplyLines(effects + more) == ApplyLines(effects)
    decreases |more|
  {
    if more == [] {
      assert effects + more == effects;
    } else {
      var front := more[..|more| - 1];
      assert (effects + more)[..|effects + more| - 1] == effects + front;
      ApplyLinesStaysFailed(effects, front);
    }
  }

  /** The load of a file's lines fails exactly when one of them panics, and
      then it reports the first such line. */
  lemma {:induction false} KeyMapOfFails(lines: seq<string>)
    ensures KeyMapOf(lines).Success? <==> forall i :: 0 <= i < |lines| ==> !ParseLine(lines[i]).Panics?
    ensures KeyMapOf(lines).Failure? ==>
              exists i :: 0 <= i < |lines| && ParseLine(lines[i]) == Panics(KeyMapOf(lines).error)
                       && forall j :: 0 <= j < i ==> !ParseLine(lines[j]).Panics?
  {
    ApplyLinesFails(LineEffects(lines));
  }

  lemma {:induction false} ApplyLinesFails(effects: seq<LineEffect>)
    ensures ApplyLines(effects).Success? <==> forall i :: 0 <= i < |effects| ==> !effects[i].Panics?
    ensures ApplyLines(effects).Failure? ==>
              exists i :: 0 <= i < |effects| && effects[i] == Panics(ApplyLines(effects).error)
                       && forall j :: 0 <= j < i ==> !effects[j].Panics?
    decreases |effects|
  {
    if effects != [] {
      var front := effects[..|effects| - 1];
      var last := effects[|effects| - 1];
      ApplyLinesFails(front);
      assert forall i :: 0 <= i < |front| ==> effects[i] == front[i];
      if ApplyLines(front).Failure? {
        var i :| 0 <= i < |front| && front[i] == Panics(ApplyLines(front).error)
                 && forall j :: 0 <= j < i ==> !front[j].Panics?;
        assert effects[i] == front[i];
      } else if last.Panics? {
        assert effects[|effects| - 1] == Panics(ApplyLines(effects).error);
      }
    }
  }

  /** The line sets amount n. */
  predicate SetsAmount(line: string, n: int)
  {
    ParseLine(line).Entry? && ParseLine(line).amount == n
  }

  lemma {:induction false} ApplyLinesLastWins(effects: seq<LineEffect>, n: int, i: nat)
    requires ApplyLines(effects).Success?
    requires i < |effects| && effects[i].Entry? && effects[i].amount == n
    requires forall j :: i < j < |effects| ==> !(effects[j].Entry? && effects[j].amount == n)
    ensures n in ApplyLines(effects).value
    ensures ApplyLines(effects).value[n] == effects[i].action
    decreases |effects|
  {
    var front := effects[..|effects| - 1];
    if i < |effects| - 1 {
      ApplyLinesLastWins(front, n, i);
    }
  }

  lemma {:induction false} ApplyLinesUnsetAbsent(effects: seq<LineEffect>, n: int)
    requires ApplyLines(effects).Success?
    requires forall j :: 0 <= j < |effects| ==> !(effects[j].Entry? && effects[j].amount == n)
    ensures n !in ApplyLines(effects).value
    decreases |effects|
  {
    if effects != [] {
      ApplyLinesUnsetAbsent(effects[..|effects| - 1], n);
    }
  }

  /** A later line with the same amount overwrites: the entry for n is the
      action of the LAST line that sets n. */
  lemma KeyMapLastLineWins(lines: seq<string>, n: int, i: nat)
    requires KeyMapOf(lines).Success?
    requires i < |lines| && SetsAmount(lines[i], n)
    requires forall j :: i < j < |lines| ==> !SetsAmount(lines[j], n)
    ensures n in KeyMapOf(lines).value
    ensures KeyMapOf(lines).value[n] == ParseLine(lines[i]).action
  {
    ApplyLinesLastWins(LineEffects(lines), n, i);
  }

  /** An amount that no line sets has no entry. */
  lemma KeyMapUnsetAbsent(lines: seq<string>, n: int)
    requires KeyMapOf(lines).Success?
    requires forall j :: 0 <= j < |lines| ==> !SetsAmount(lines[j], n)
    ensures n !in KeyMapOf(lines).value
  {
    ApplyLinesUnsetAbsent(LineEffects(lines), n);
  }

  /** A skipped line (empty, trailing, or with a bad amount) leaves the key map
      as it was, and the lines after it still load. */
  lemma SkippedLineChangesNothing(lines: seq<string>, line: string)
    requires ParseLine(line).Skipped?
    ensures KeyMapOf(lines + [line]) == KeyMapOf(lines)
  {
    assert LineEffects(lines + [line])[..|lines|] == LineEffects(lines);
  }

  /** Appending `<n>:<a>` sets n to a and keeps every other entry. */
  lemma AppendedLineSets(lines: seq<string>, n: int, a: string)
    requires KeyMapOf(lines).Success?
    requires InInt32(n) && ':' !in a
    ensures KeyMapOf(lines + [FormatDecimal(n) + ":" + a]) == Success(KeyMapOf(lines).value[n := a])
  {
    var line := FormatDecimal(n) + ":" + a;
    var effects := LineEffects(lines + [line]);
    assert ParseLine(line) == Entry(n, a) by {
      LineRoundTrip(n, a, "");
    }
    assert effects[|lines|] == Entry(n, a);
    assert effects[..|effects| - 1] == LineEffects(lines);
  }

  /** A parsed config file: the game name from line 0 and its key map. */
  datatype GameConfig = GameConfig(name: string, keys: KeyMap)

  /** One file's contents, split on '\n'. Line 0 is the game name verbatim
      (no trimming); the other lines feed KeyMapOf. */
  function ParseConfig(contents: string): Result<GameConfig, string>
  {
    var lines := Split(contents, '\n');
    match KeyMapOf(lines[1..])
    case Failure(l) => Failure(l)
    case Success(m) => Success(GameConfig(lines[0], m))
  }

  /** A file loads unless one of its mapping lines panics, and then the
      first such line is reported; a file that loads is named by its text up
      to the first newline, and its key map is built from the lines after it. */
  lemma ParseConfigMeaning(contents: string, lines: seq<string>)
    requires lines == Split(contents, '\n')[1..]
    ensures ParseConfig(contents).Success? <==> forall i :: 0 <= i < |lines| ==> !ParseLine(lines[i]).Panics?
    ensures ParseConfig(contents).Failure? ==>
              exists i :: 0 <= i < |lines| && ParseLine(lines[i]) == Panics(ParseConfig(contents).error)
                       && forall j :: 0 <= j < i ==> !ParseLine(lines[j]).Panics?
    ensures ParseConfig(contents).Success? ==>
              && ParseConfig(contents).value.name == contents[..IndexOf(contents, '\n')]
              && ParseConfig(contents).value.keys == KeyMapOf(lines).value
  {
    ConfigOfLines(Split(contents, '\n')[0], lines, ParseConfig(contents));
  }

  /** The outcome of loading a file named `name` whose mapping lines are
      `lines`, stated without the split that produced them. */
  lemma ConfigOfLines(name: string, lines: seq<string>, config: Result<GameConfig, string>)
    requires config == match KeyMapOf(lines)
                       case Failure(l) => Failure(l)
                       case Success(m) => Success(GameConfig(name, m))
    ensures config.Success? <==> forall i :: 0 <= i < |lines| ==> !ParseLine(lines[i]).Panics?
    ensures config.Failure? ==>
              exists i :: 0 <= i < |lines| && ParseLine(lines[i]) == Panics(config.error)
                       && forall j :: 0 <= j < i ==> !ParseLine(lines[j]).Panics?
    ensures config.Success? ==> config.value == GameConfig(name, KeyMapOf(lines).value)
  {
    KeyMapOfFails(lines);
  }

  lemma SingleLineKeyMap(n: int, a: string)
    requires InInt32(n) && ':' !in a
    ensures KeyMapOf([FormatDecimal(n) + ":" + a]) == Success(map[n := a])
  {
    var line := FormatDecimal(n) + ":" + a;
    assert KeyMapOf([]) == Success(map[]);
    AppendedLineSets([], n, a);
    assert [] + [line] == [line];
  }

  /** A one-mapping config file loads as that game with that one entry. */
  lemma ConfigRoundTrip(name: string, n: int, a: string)
    requires '\n' !in name
    requires InInt32(n) && ':' !in a && '\n' !in a
    ensures ParseConfig(name + "\n" + FormatDecimal(n) + ":" + a) == Success(GameConfig(name, map[n := a]))
  {
    var line := FormatDecimal(n) + ":" + a;
    assert '\n' !in line;
    assert name + "\n" + FormatDecimal(n) + ":" + a == name + "\n" + line;
    SplitPair(name, '\n', line);
    assert [name, line][1..] == [line];
    SingleLineKeyMap(n, a);
  }

  /** One step of the key-map fold that does not panic. */
  lemma ApplyLinesStep(effects: seq<LineEffect>, k: nat, m: KeyMap)
    requires k < |effects| && ApplyLines(effects[..k]) == Success(m)
    ensures effects[k].Skipped? ==> ApplyLines(effects[..k + 1]) == Success(m)
    ensures effects[k].Entry? ==>
              ApplyLines(effects[..k + 1]) == Success(m[effects[k].amount := effects[k].action])
  {
    var prefix := effects[..k + 1];
    assert prefix[..|prefix| - 1] == effects[..k];
  }

  /** Once a prefix of the effects has failed, the rest change nothing. */
  lemma {:induction false} ApplyLinesFailedPrefix(effects: seq<LineEffect>, k: nat)
    requires k <= |effects| && ApplyLines(effects[..k]).Failure?
    ensures ApplyLines(effects) == ApplyLines(effects[..k])
    decreases |effects| - k
  {
    if k == |effects| {
      assert effects[..k] == effects;
    } else {
      var front := effects[..|effects| - 1];
      assert front[..k] == effects[..k];
      ApplyLinesFailedPrefix(front, k);
    }
  }

  /** A panicking line ends the load of the file with that line. */
  lemma ApplyLinesPanicStep(effects: seq<LineEffect>, k: nat, m: KeyMap)
    requires k < |effects| && ApplyLines(effects[..k]) == Success(m)
    requires effects[k].Panics?
    ensures ApplyLines(effects) == Failure(effects[k].line)
  {
    var prefix := effects[..k + 1];
    assert prefix[..|prefix| - 1] == effects[..k];
    assert ApplyLines(prefix) == Failure(effects[k].line);
    ApplyLinesFailedPrefix(effects, k + 1);
  }

  /** What the inner loop of configSetup does with mapping line k: it is
      skipped when its first ':'-field does not parse, it ends the file when
      it has no second field, and otherwise it stores that field. */
  lemma ReadLineStep(lines: seq<string>, effects: seq<LineEffect>, k: nat, m: KeyMap,
                      line: string, tmp: seq<string>, value: Result<int, NumError>)
    requires effects == LineEffects(lines)
    requires k < |lines| && line == lines[k] && ApplyLines(effects[..k]) == Success(m)
    requires tmp == Split(line, ':') && value == ParseInt32(tmp[0])
    ensures value.Failure? ==> ApplyLines(effects[..k + 1]) == Success(m)
    ensures value.Success? && |tmp| < 2 ==> ApplyLines(effects) == Failure(line)
    ensures value.Success? && |tmp| >= 2 ==>
              ApplyLines(effects[..k + 1]) == Success(m[value.value := tmp[1]])
  {
    assert effects[k] == ParseLine(line);
    if value.Success? && |tmp| < 2 {
      assert effects[k] == Panics(line);
      ApplyLinesPanicStep(effects, k, m);
    } else {
      ApplyLinesStep(effects, k, m);
    }
  }

  /** The inner loop of configSetup: walks the lines of one file, taking
      line 0 as the game name and adding each parsed mapping line to a key map
      that it updates in place. */
  method ReadConfig(contents: string) returns (r: Result<GameConfig, string>)
    ensures r == ParseConfig(contents)
  {
    var str := Split(contents, '\n');
    ghost var effects := LineEffects(str[1..]);
    var keyMap: KeyMap := map[];
    var gameName := "";
    var i := 0;
    while i < |str|
      invariant 0 <= i <= |str|
      invariant i == 0 ==> keyMap == map[]
      invariant i >= 1 ==> gameName == str[0]
      invariant i >= 1 ==> ApplyLines(effects[..i - 1]) == Success(keyMap)
    {
      var s := str[i];
      if i == 0 {
        gameName := s;
        assert effects[..0] == [];
      } else {
        var tmp := Split(s, ':');
        var value := ParseInt32(tmp[0]);
        assert str[1..][i - 1] == s;
        ReadLineStep(str[1..], effects, i - 1, keyMap, s, tmp, value);
        if value.Success? {
          if |tmp| < 2 {
            return Failure(s);
          }
          keyMap := keyMap[value.value := tmp[1]];
        }
      }
      i := i + 1;
    }
    assert effects[..i - 1] == effects;
    r := Success(GameConfig(gameName, keyMap));
  }

  /** A directory entry: its name and, unless reading it fails, its contents. */
  datatype DirEntry = DirEntry(name: string, contents: Option<string>)

  /** configSetup considers only names ending in ".config". */
  predicate IsConfigFile(name: string)
  {
    HasSuffix(name, ".config")
  }

  /** A config file that was read successfully. */
  predicate Readable(e: DirEntry)
  {
    IsConfigFile(e.name) && e.contents.Some?
  }

  /** What one directory entry does to the table. */
  datatype FileLoad =
    | Ignored                   // not a ".config" name, or the read failed
    | Loaded(config: GameConfig) // gameMap[name] = keys
    | Aborted(line: string)      // a line of the file panicked

  function LoadEntry(e: DirEntry): FileLoad
  {
    if !Readable(e) then Ignored
    else
      match ParseConfig(e.contents.value)
      case Failure(line) => Aborted(line)
      case Success(cfg) => Loaded(cfg)
  }

  /** The effect of each directory entry, in listing order. */
  function EntryLoads(entries: seq<DirEntry>): (loads: seq<FileLoad>)
    ensures |loads| == |entries|
    ensures forall i :: 0 <= i < |entries| ==> loads[i] == LoadEntry(entries[i])
  {
    seq(|entries|, i requires 0 <= i < |entries| => LoadEntry(entries[i]))
  }

  /** The table after the load: complete, or stopped at a panicking line with
      the table as it stood before that file. */
  datatype LoadResult = Complete(table: Table) | Crashed(table: Table, line: string)

  /** The file effects applied in order to `table`; the first abort stops. */
  function ApplyFiles(table: Table, loads: seq<FileLoad>): LoadResult
    decreases |loads|
  {
    if loads == [] then Complete(table)
    else
      var prev := ApplyFiles(table, loads[..|loads| - 1]);
      if prev.Crashed? then prev
      else
        match loads[|loads| - 1]
        case Ignored => prev
        case Aborted(line) => Crashed(prev.table, line)
        case Loaded(cfg) => Complete(prev.table[cfg.name := cfg.keys])
  }

  /** The outer loop of configSetup over the directory listing, starting from
      `table`: each readable config file replaces the entry of its game name. */
  function LoadFiles(table: Table, entries: seq<DirEntry>): LoadResult
  {
    ApplyFiles(table, EntryLoads(entries))
  }

  lemma EntryLoadsSnoc(entries: seq<DirEntry>, e: DirEntry)
    ensures EntryLoads(entries + [e]) == EntryLoads(entries) + [LoadEntry(e)]
  {
  }

  /** Once a file has aborted the load, later files change nothing. */
  lemma {:induction false} ApplyFilesStaysCrashed(table: Table, loads: seq<FileLoad>, more: seq<FileLoad>)
    requires ApplyFiles(table, loads).Crashed?
    ensures ApplyFiles(table, loads + more) == ApplyFiles(table, loads)
    decreases |more|
  {
    if more == [] {
      assert loads + more == loads;
    } else {
      var front := more[..|more| - 1];
      assert (loads + more)[..|loads + more| - 1] == loads + front;
      ApplyFilesStaysCrashed(table, loads, front);
    }
  }

  /** One step of the load over the files that does not abort. */
  lemma ApplyFilesStep(table: Table, loads: seq<FileLoad>, k: nat, current: Table)
    requires k < |loads| && ApplyFiles(table, loads[..k]) == Complete(current)
    ensures loads[k].Ignored? ==> ApplyFiles(table, loads[..k + 1]) == Complete(current)
    ensures loads[k].Loaded? ==>
              ApplyFiles(table, loads[..k + 1]) == Complete(current[loads[k].config.name := loads[k].config.keys])
  {
    var prefix := loads[..k + 1];
    assert prefix[..|prefix| - 1] == loads[..k];
  }

  /** What the outer loop of configSetup does with entry k of the listing:
      an unreadable or non-config entry changes nothing, a file with a
      panicking line ends the load, and a file that loads replaces the key map
      of its game. */
  lemma LoadFileStep(table: Table, entries: seq<DirEntry>, loads: seq<FileLoad>, k: nat,
                     current: Table, e: DirEntry)
    requires loads == EntryLoads(entries)
    requires k < |entries| && e == entries[k] && ApplyFiles(table, loads[..k]) == Complete(current)
    ensures !Readable(e) ==> ApplyFiles(table, loads[..k + 1]) == Complete(current)
    ensures Readable(e) && ParseConfig(e.contents.value).Failure? ==>
              ApplyFiles(table, loads) == Crashed(current, ParseConfig(e.contents.value).error)
    ensures Readable(e) && ParseConfig(e.contents.value).Success? ==>
              var c := ParseConfig(e.contents.value).value;
              ApplyFiles(table, loads[..k + 1]) == Complete(current[c.name := c.keys])
  {
    assert loads[k] == LoadEntry(e);
    if Readable(e) && ParseConfig(e.contents.value).Failure? {
      ApplyFilesAbortStep(table, loads, k, current);
    } else {
      ApplyFilesStep(table, loads, k, current);
    }
  }

  /** An aborting file ends the load with the table as it stood before it. */
  lemma ApplyFilesAbortStep(table: Table, loads: seq<FileLoad>, k: nat, current: Table)
    requires k < |loads| && ApplyFiles(table, loads[..k]) == Complete(current)
    requires loads[k].Aborted?
    ensures ApplyFiles(table, loads) == Crashed(current, loads[k].line)
  {
    var prefix := loads[..k + 1];
    var rest := loads[k + 1..];
    assert prefix[..|prefix| - 1] == loads[..k];
    assert ApplyFiles(table, prefix) == Crashed(current, loads[k].line);
    ApplyFilesStaysCrashed(table, prefix, rest);
    assert prefix + rest == loads;
  }

  lemma {:induction false} ApplyFilesCompletes(table: Table, loads: seq<FileLoad>)
    ensures ApplyFiles(table, loads).Complete? <==> forall i :: 0 <= i < |loads| ==> !loads[i].Aborted?
    decreases |loads|
  {
    if loads != [] {
      ApplyFilesCompletes(table, loads[..|loads| - 1]);
    }
  }

  /** The load completes exactly when no readable config file has a line
      that panics. */
  lemma LoadCompletes(table: Table, entries: seq<DirEntry>)
    ensures LoadFiles(table, entries).Complete? <==>
              forall i :: 0 <= i < |entries| && Readable(entries[i]) ==>
                ParseConfig(entries[i].contents.value).Success?
  {
    ApplyFilesCompletes(table, EntryLoads(entries));
  }

  /** The entries a load actually reads: config files whose read succeeded. */
  function ReadableEntries(entries: seq<DirEntry>): seq<DirEntry>
    decreases |entries|
  {
    if entries == [] then []
    else
      var front := ReadableEntries(entries[..|entries| - 1]);
      var e := entries[|entries| - 1];
      if Readable(e) then front + [e] else front
  }

  /** The readable entries are exactly the entries that are readable. */
  lemma {:induction false} ReadableEntriesMembers(entries: seq<DirEntry>)
    ensures forall e :: e in ReadableEntries(entries) <==> e in entries && Readable(e)
    decreases |entries|
  {
    if entries != [] {
      var front := entries[..|entries| - 1];
      var last := entries[|entries| - 1];
      ReadableEntriesMembers(front);
      assert entries == front + [last];
    }
  }

  /** An entry the load ignores changes nothing. */
  lemma LoadFilesSnocIgnored(table: Table, entries: seq<DirEntry>, e: DirEntry)
    requires !Readable(e)
    ensures LoadFiles(table, entries + [e]) == LoadFiles(table, entries)
  {
    EntryLoadsSnoc(entries, e);
    var loads := EntryLoads(entries + [e]);
    assert loads[..|loads| - 1] == EntryLoads(entries);
  }

  /** The load of one more entry depends only on the load so far. */
  lemma LoadFilesSnocSame(table: Table, a: seq<DirEntry>, b: seq<DirEntry>, e: DirEntry)
    requires LoadFiles(table, a) == LoadFiles(table, b)
    ensures LoadFiles(table, a + [e]) == LoadFiles(table, b + [e])
  {
    EntryLoadsSnoc(a, e);
    EntryLoadsSnoc(b, e);
    var la, lb := EntryLoads(a + [e]), EntryLoads(b + [e]);
    assert la[..|la| - 1] == EntryLoads(a);
    assert lb[..|lb| - 1] == EntryLoads(b);
  }

  /** Only readable ".config" files count: dropping every other entry (other
      names, files whose read failed) gives the same load. */
  lemma {:induction false} OnlyReadableConfigFilesCount(table: Table, entries: seq<DirEntry>)
    ensures LoadFiles(table, entries) == LoadFiles(table, ReadableEntries(entries))
    decreases |entries|
  {
    if entries != [] {
      var front := entries[..|entries| - 1];
      var e := entries[|entries| - 1];
      assert entries == front + [e];
      OnlyReadableConfigFilesCount(table, front);
      var rf := ReadableEntries(front);
      if Readable(e) {
        assert ReadableEntries(entries) == rf + [e];
        LoadFilesSnocSame(table, front, rf, e);
      } else {
        assert ReadableEntries(entries) == rf;
        LoadFilesSnocIgnored(table, front, e);
      }
    }
  }

  /** The file loads as the config of game g. */
  predicate LoadsAs(e: DirEntry, g: string)
  {
    LoadEntry(e).Loaded? && LoadEntry(e).config.name == g
  }

  lemma {:induction false} ApplyFilesLastWins(table: Table, loads: seq<FileLoad>, g: string, i: nat)
    requires ApplyFiles(table, loads).Complete?
    requires i < |loads| && loads[i].Loaded? && loads[i].config.name == g
    requires forall j :: i < j < |loads| ==> !(loads[j].Loaded? && loads[j].config.name == g)
    ensures g in ApplyFiles(table, loads).table
    ensures ApplyFiles(table, loads).table[g] == loads[i].config.keys
    decreases |loads|
  {
    if i < |loads| - 1 {
      ApplyFilesLastWins(table, loads[..|loads| - 1], g, i);
    }
  }

  lemma {:induction false} ApplyFilesUndeclared(table: Table, loads: seq<FileLoad>, g: string)
    requires ApplyFiles(table, loads).Complete?
    requires forall j :: 0 <= j < |loads| ==> !(loads[j].Loaded? && loads[j].config.name == g)
    ensures g in ApplyFiles(table, loads).table <==> g in table
    ensures g in table ==> ApplyFiles(table, loads).table[g] == table[g]
    decreases |loads|
  {
    if loads != [] {
      ApplyFilesUndeclared(table, loads[..|loads| - 1], g);
    }
  }

  /** A later file with the same game name replaces the earlier map wholesale:
      after a complete load, the entry for g is exactly the key map of the
      last file that loads as g. */
  lemma LastFileWins(table: Table, entries: seq<DirEntry>, g: string, i: nat)
    requires LoadFiles(table, entries).Complete?
    requires i < |entries| && LoadsAs(entries[i], g)
    requires forall j :: i < j < |entries| ==> !LoadsAs(entries[j], g)
    ensures g in LoadFiles(table, entries).table
    ensures LoadFiles(table, entries).table[g] == ParseConfig(entries[i].contents.value).value.keys
  {
    ApplyFilesLastWins(table, EntryLoads(entries), g, i);
  }

  /** A game name no file declares keeps its entry (or its absence). */
  lemma UndeclaredGameUnchanged(table: Table, entries: seq<DirEntry>, g: string)
    requires LoadFiles(table, entries).Complete?
    requires forall j :: 0 <= j < |entries| ==> !LoadsAs(entries[j], g)
    ensures g in LoadFiles(table, entries).table <==> g in table
    ensures g in table ==> LoadFiles(table, entries).table[g] == table[g]
  {
    ApplyFilesUndeclared(table, EntryLoads(entries), g);
  }
}
