/** Searching and counting the commands of a sosreport manifest. The manifest's plugins are a
    map, so every result has to hold for whatever order the iteration takes. */
module SosCommands {
  import opened Strings
  import opened LineWindow

  datatype Command = Command(exec: string, filepath: string)

  type Plugins = map<string, seq<Command>>

  datatype CommandMatch = CommandMatch(plugin: string, exec: string, filepath: string)

  const DEFAULT_MAX_RESULTS: int := 100

  predicate Hit(p: Pattern, c: Command) {
    p.Allows(c.exec) || p.Allows(c.filepath)
  }

  /** The matching commands of one plugin, in order. */
  function HitsOf(p: Pattern, plugin: string, commands: seq<Command>): seq<CommandMatch> {
    if commands == [] then []
    else
      var c := commands[0];
      (if Hit(p, c) then [CommandMatch(plugin, c.exec, c.filepath)] else []) + HitsOf(p, plugin, commands[1..])
  }

  /** All matching commands of the plugins named, with their multiplicity. */
  ghost function AllHits(p: Pattern, plugins: Plugins, names: set<string>): multiset<CommandMatch>
    requires names <= plugins.Keys
    decreases |names|
  {
    if names == {} then multiset{}
    else
      var n :| n in names;
      multiset(HitsOf(p, n, plugins[n])) + AllHits(p, plugins, names - {n})
  }

  /** Which plugin is counted first makes no difference. */
  lemma {:induction false} AllHitsPick(p: Pattern, plugins: Plugins, names: set<string>, n: string)
    requires names <= plugins.Keys && n in names
    ensures AllHits(p, plugins, names) == multiset(HitsOf(p, n, plugins[n])) + AllHits(p, plugins, names - {n})
    decreases |names|
  {
    var m :| m in names
             && AllHits(p, plugins, names) == multiset(HitsOf(p, m, plugins[m])) + AllHits(p, plugins, names - {m});
    if m != n {
      AllHitsPick(p, plugins, names - {m}, n);
      AllHitsPick(p, plugins, names - {n}, m);
      assert names - {m} - {n} == names - {n} - {m};
    }
  }

  lemma {:induction false} InHitsOf(p: Pattern, plugin: string, commands: seq<Command>, m: CommandMatch)
    ensures m in HitsOf(p, plugin, commands) <==>
            m.plugin == plugin && Command(m.exec, m.filepath) in commands && Hit(p, Command(m.exec, m.filepath))
  {
    if commands != [] {
      InHitsOf(p, plugin, commands[1..], m);
      assert forall c :: c in commands <==> c == commands[0] || c in commands[1..];
      var c := commands[0];
      assert c == Command(c.exec, c.filepath);
    }
  }

  /** A hit is a command of its plugin that the pattern allows. */
  lemma {:induction false} HitsAreGenuine(p: Pattern, plugins: Plugins, names: set<string>, m: CommandMatch)
    requires names <= plugins.Keys
    ensures m in AllHits(p, plugins, names) <==>
            && m.plugin in names && Command(m.exec, m.filepath) in plugins[m.plugin]
            && (p.Matching? ==> p.matches(m.exec) || p.matches(m.filepath))
    decreases |names|
  {
    if names != {} {
      var n :| n in names;
      AllHitsPick(p, plugins, names, n);
      InHitsOf(p, n, plugins[n], m);
      HitsAreGenuine(p, plugins, names - {n}, m);
    }
  }

  datatype SearchResult = SearchResult(matches: seq<CommandMatch>, total: int)

  /** A part of the hits that is as large as the limit allows. */
  ghost predicate Truncates(matches: seq<CommandMatch>, all: multiset<CommandMatch>, limit: nat) {
    && multiset(matches) <= all
    && |matches| == (if |all| <= limit then |all| else limit)
    && (|all| <= limit ==> multiset(matches) == all)
  }

  lemma TruncatesAt(matches: seq<CommandMatch>, rest: multiset<CommandMatch>, all: multiset<CommandMatch>, limit: nat)
    requires multiset(matches) + rest == all
    requires |matches| == limit || (rest == multiset{} && |matches| < limit)
    ensures Truncates(matches, all, limit)
  {
    assert |multiset(matches)| == |matches|;
    assert |all| == |matches| + |rest|;
    if |all| <= limit {
      assert rest == multiset{};
    }
  }

  /** The two tests on one command. */
  method CommandHits(p: Pattern, c: Command) returns (valid: bool, hit: bool)
    ensures valid <==> !p.BadPattern?
    ensures valid ==> hit == Hit(p, c)
  {
    var execMatches := ExecuteWithMatch(p, Some([c.exec]), true);
    if !execMatches.Lines? {
      return false, false;
    }
    var filepathMatches := ExecuteWithMatch(p, Some([c.filepath]), true);
    assert [c.exec] == [] + [c.exec] && [c.filepath] == [] + [c.filepath];
    FilterMore(l => p.Allows(l), [], c.exec);
    FilterMore(l => p.Allows(l), [], c.filepath);
    return true, |execMatches.lines| == 1 || |filepathMatches.lines| == 1;
  }

  /** As many of the hits as there is room for. */
  function UpTo(hits: seq<CommandMatch>, room: nat): seq<CommandMatch> {
    if |hits| <= room then hits else hits[..room]
  }

  /** With `rest` still to come, what has been found leads to `goal`. */
  ghost predicate Toward(matches: seq<CommandMatch>, rest: seq<CommandMatch>, limit: nat, goal: seq<CommandMatch>) {
    |matches| <= limit && matches + UpTo(rest, limit - |matches|) == goal
  }

  lemma TowardStep(matches: seq<CommandMatch>, m: CommandMatch, rest: seq<CommandMatch>, limit: nat,
                   goal: seq<CommandMatch>)
    requires |matches| < limit && Toward(matches, [m] + rest, limit, goal)
    ensures Toward(matches + [m], rest, limit, goal)
  {
    var room := limit - |matches|;
    if |rest| + 1 > room {
      assert ([m] + rest)[..room] == [m] + rest[..room - 1];
    }
    assert UpTo([m] + rest, room) == [m] + UpTo(rest, room - 1);
  }

  lemma TowardEnd(matches: seq<CommandMatch>, rest: seq<CommandMatch>, limit: nat, goal: seq<CommandMatch>)
    requires Toward(matches, rest, limit, goal) && (rest == [] || |matches| == limit)
    ensures matches == goal
  {
    assert UpTo(rest, limit - |matches|) == [];
  }

  lemma HitsStep(p: Pattern, plugin: string, commands: seq<Command>, i: nat)
    requires i < |commands|
    ensures var c, rest := commands[i], HitsOf(p, plugin, commands[i + 1..]);
            HitsOf(p, plugin, commands[i..]) ==
            if Hit(p, c) then [CommandMatch(plugin, c.exec, c.filepath)] + rest else rest
  {
    assert commands[i..][1..] == commands[i + 1..];
  }

  /** The inner loop of `searchCommands`: one plugin, up to the limit. */
  method SearchPlugin(p: Pattern, plugin: string, commands: seq<Command>, found: seq<CommandMatch>, limit: nat)
    returns (valid: bool, matches: seq<CommandMatch>)
    requires |found| < limit
    ensures valid <==> !p.BadPattern? || commands == []
    ensures valid ==> matches == found + UpTo(HitsOf(p, plugin, commands), limit - |found|)
  {
    matches := found;
    ghost var rest := HitsOf(p, plugin, commands);
    ghost var goal := found + UpTo(rest, limit - |found|);
    var i := 0;
    assert commands[0..] == commands;
    while i < |commands|
      invariant 0 <= i <= |commands|
      invariant |matches| < limit
      invariant rest == HitsOf(p, plugin, commands[i..])
      invariant Toward(matches, rest, limit, goal)
      invariant p.BadPattern? ==> i == 0
    {
      var c := commands[i];
      var ok, hit := CommandHits(p, c);
      if !ok {
        return false, [];
      }
      HitsStep(p, plugin, commands, i);
      i := i + 1;
      rest := HitsOf(p, plugin, commands[i..]);
      if hit {
        var m := CommandMatch(plugin, c.exec, c.filepath);
        TowardStep(matches, m, rest, limit, goal);
        matches := matches + [m];
        if |matches| >= limit {
          TowardEnd(matches, rest, limit, goal);
          return true, matches;
        }
      }
    }
    TowardEnd(matches, rest, limit, goal);
    return true, matches;
  }

  /** `searchCommands` on a loaded manifest. A pattern that does not compile is only noticed
      when there is a command to try it on. */
  method SearchCommands(plugins: Plugins, p: Pattern, maxResults: int) returns (r: Option<SearchResult>)
    ensures r.None? <==> p.BadPattern? && exists n :: n in plugins && plugins[n] != []
    ensures r.Some? ==> r.value.total == |r.value.matches|
    ensures r.Some? ==> var limit := if maxResults <= 0 then 100 else maxResults;
                        Truncates(r.value.matches, AllHits(p, plugins, plugins.Keys), limit)
  {
    var limit := if maxResults <= 0 then DEFAULT_MAX_RESULTS else maxResults;
    var matches: seq<CommandMatch> := [];
    var todo := plugins.Keys;
    while todo != {}
      invariant todo <= plugins.Keys
      invariant FoundBut(p, plugins, todo, matches)
      invariant |matches| < limit
      invariant p.BadPattern? ==> forall n :: n in plugins.Keys - todo ==> plugins[n] == []
      decreases |todo|
    {
      var plugin :| plugin in todo;
      ghost var before := matches;
      var valid;
      valid, matches := SearchPlugin(p, plugin, plugins[plugin], matches, limit);
      if !valid {
        return None;
      }
      PluginSearched(p, plugins, todo, plugin, before, matches, limit);
      if |matches| >= limit {
        return Some(SearchResult(matches, |matches|));
      }
      todo := todo - {plugin};
    }
    AllSearched(p, plugins, matches, limit);
    return Some(SearchResult(matches, |matches|));
  }

  /** All hits have been found but those of the plugins still to do. */
  ghost predicate FoundBut(p: Pattern, plugins: Plugins, todo: set<string>, matches: seq<CommandMatch>)
    requires todo <= plugins.Keys
  {
    multiset(matches) + AllHits(p, plugins, todo) == AllHits(p, plugins, plugins.Keys)
  }

  lemma PluginSearched(p: Pattern, plugins: Plugins, todo: set<string>, plugin: string,
                       before: seq<CommandMatch>, after: seq<CommandMatch>, limit: nat)
    requires todo <= plugins.Keys && plugin in todo && FoundBut(p, plugins, todo, before)
    requires |before| < limit && after == before + UpTo(HitsOf(p, plugin, plugins[plugin]), limit - |before|)
    ensures |after| <= limit
    ensures |after| == limit ==> Truncates(after, AllHits(p, plugins, plugins.Keys), limit)
    ensures |after| < limit ==> FoundBut(p, plugins, todo - {plugin}, after)
  {
    AllHitsPick(p, plugins, todo, plugin);
    var hits, others := HitsOf(p, plugin, plugins[plugin]), AllHits(p, plugins, todo - {plugin});
    PluginAdded(before, after, hits, others, limit, AllHits(p, plugins, plugins.Keys));
  }

  lemma AllSearched(p: Pattern, plugins: Plugins, matches: seq<CommandMatch>, limit: nat)
    requires FoundBut(p, plugins, {}, matches) && |matches| < limit
    ensures Truncates(matches, AllHits(p, plugins, plugins.Keys), limit)
  {
    TruncatesAt(matches, multiset{}, AllHits(p, plugins, plugins.Keys), limit);
  }

  /** The hits there was no room for. */
  function Beyond(hits: seq<CommandMatch>, room: nat): seq<CommandMatch> {
    if |hits| <= room then [] else hits[room..]
  }

  /** After one more plugin either the limit is reached or all its hits are in. */
  lemma PluginAdded(before: seq<CommandMatch>, after: seq<CommandMatch>, hits: seq<CommandMatch>,
                    others: multiset<CommandMatch>, limit: nat, all: multiset<CommandMatch>)
    requires |before| < limit && after == before + UpTo(hits, limit - |before|)
    requires multiset(before) + (multiset(hits) + others) == all
    ensures |after| <= limit
    ensures |after| == limit ==> Truncates(after, all, limit)
    ensures |after| < limit ==> multiset(after) + others == all
  {
    var room := limit - |before|;
    var left := Beyond(hits, room);
    assert hits == UpTo(hits, room) + left;
    assert multiset(after) + (multiset(left) + others) == all;
    if |after| == limit {
      TruncatesAt(after, multiset(left) + others, all, limit);
    } else {
      assert multiset(left) == multiset{};
    }
  }

  /** Two searches of one manifest, whatever orders they took, find equally many commands, and
      the same ones whenever the limit is not exceeded. */
  lemma SearchOrderIrrelevant(m1: seq<CommandMatch>, m2: seq<CommandMatch>, all: multiset<CommandMatch>, limit: nat)
    requires Truncates(m1, all, limit) && Truncates(m2, all, limit)
    ensures |m1| == |m2|
    ensures |m1| < limit || |all| <= limit ==> multiset(m1) == multiset(m2)
  {
  }

  datatype PluginSummary = PluginSummary(name: string, commandCount: int)

  function SumOfCounts(summaries: seq<PluginSummary>): int {
    if summaries == [] then 0
    else SumOfCounts(summaries[..|summaries| - 1]) + summaries[|summaries| - 1].commandCount
  }

  lemma SumMore(summaries: seq<PluginSummary>, s: PluginSummary)
    ensures SumOfCounts(summaries + [s]) == SumOfCounts(summaries) + s.commandCount
  {
    assert (summaries + [s])[..|summaries|] == summaries;
  }

  /** The summaries are those of the plugins named. */
  ghost predicate Listed(plugins: Plugins, summaries: seq<PluginSummary>, names: set<string>)
    requires names <= plugins.Keys
  {
    forall s :: s in summaries <==> s.name in names && s.commandCount == |plugins[s.name]|
  }

  lemma ListedMore(plugins: Plugins, summaries: seq<PluginSummary>, names: set<string>, s: PluginSummary)
    requires names <= plugins.Keys && s.name in plugins && s.commandCount == |plugins[s.name]|
    requires Listed(plugins, summaries, names)
    ensures Listed(plugins, summaries + [s], names + {s.name})
  {
    assert s == PluginSummary(s.name, s.commandCount);
  }

  /** How many commands a search without a pattern and without a limit would find. */
  ghost function CountIn(plugins: Plugins, names: set<string>): nat
    requires names <= plugins.Keys
  {
    |AllHits(NoPattern, plugins, names)|
  }

  lemma CommandsCount(plugins: Plugins, names: set<string>, n: string)
    requires names <= plugins.Keys && n in names
    ensures CountIn(plugins, names) == |plugins[n]| + CountIn(plugins, names - {n})
  {
    AllHitsPick(NoPattern, plugins, names, n);
    AllCommandsHit(n, plugins[n]);
  }

  /** `listPlugins`: every plugin once with its count, and the sum of the counts listed as total,
      which is also how many commands a search without a pattern and without a limit would find. */
  method ListPlugins(plugins: Plugins) returns (summaries: seq<PluginSummary>, total: int)
    ensures |summaries| == |plugins|
    ensures Listed(plugins, summaries, plugins.Keys)
    ensures total == SumOfCounts(summaries)
    ensures total == CountIn(plugins, plugins.Keys)
  {
    summaries := [];
    total := 0;
    var todo := plugins.Keys;
    while todo != {}
      invariant todo <= plugins.Keys
      invariant |summaries| + |todo| == |plugins|
      invariant Listed(plugins, summaries, plugins.Keys - todo)
      invariant total == SumOfCounts(summaries)
      invariant total + CountIn(plugins, todo) == CountIn(plugins, plugins.Keys)
      decreases |todo|
    {
      var plugin :| plugin in todo;
      var commandCount := |plugins[plugin]|;
      CommandsCount(plugins, todo, plugin);
      total := total + commandCount;
      var summary := PluginSummary(plugin, commandCount);
      SumMore(summaries, summary);
      ListedMore(plugins, summaries, plugins.Keys - todo, summary);
      assert plugins.Keys - (todo - {plugin}) == (plugins.Keys - todo) + {plugin};
      summaries := summaries + [summary];
      todo := todo - {plugin};
    }
  }

  lemma {:induction false} AllCommandsHit(plugin: string, commands: seq<Command>)
    ensures |HitsOf(NoPattern, plugin, commands)| == |commands|
  {
    if commands != [] {
      AllCommandsHit(plugin, commands[1..]);
    }
  }
}
