/** The tool filter: reading the lists of disabled names, and the middleware that hides and
    rejects the tools so named. */
module ToolFilter {
  import opened Strings

  // ----- comma-separated lists -----

  /** Trim every part and drop what is then empty. */
  function TrimDrop(parts: seq<string>): seq<string> {
    if parts == [] then []
    else
      var p := TrimSpace(parts[0]);
      (if p != "" then [p] else []) + TrimDrop(parts[1..])
  }

  /** The names in a comma-separated list. */
  function Names(s: string): seq<string> {
    TrimDrop(Split(s, ','))
  }

  lemma {:induction false} TrimDropAppend(a: seq<string>, b: seq<string>)
    ensures TrimDrop(a + b) == TrimDrop(a) + TrimDrop(b)
  {
    if a == [] {
      assert a + b == b;
    } else {
      assert (a + b)[1..] == a[1..] + b;
      TrimDropAppend(a[1..], b);
    }
  }

  lemma TrimDropMore(parts: seq<string>, i: nat)
    requires i < |parts|
    ensures TrimDrop(parts[..i + 1])
         == if TrimSpace(parts[i]) != "" then TrimDrop(parts[..i]) + [TrimSpace(parts[i])] else TrimDrop(parts[..i])
  {
    assert parts[..i + 1] == parts[..i] + [parts[i]];
    TrimDropAppend(parts[..i], [parts[i]]);
  }

  /** The loop of `splitCSV`: it writes through `parts[:0]` into the array it ranges over. The
      writes never overtake the reads, so the front of the array ends up as the trimmed
      non-empty parts, and what lies beyond is as it was. */
  method CompactInPlace(parts: array<string>) returns (n: nat)
    modifies parts
    ensures n <= parts.Length
    ensures parts[..n] == TrimDrop(old(parts[..]))
    ensures parts[n..] == old(parts[n..])
  {
    ghost var before := parts[..];
    ghost var kept: seq<string> := [];
    n := 0;
    for i := 0 to parts.Length
      invariant n == |kept| <= i
      invariant kept == TrimDrop(before[..i])
      invariant forall k :: 0 <= k < n ==> parts[k] == kept[k]
      invariant forall k :: n <= k < parts.Length ==> parts[k] == before[k]
    {
      var p := TrimSpace(parts[i]);
      TrimDropMore(before, i);
      if p != "" {
        parts[n] := p;
        kept := kept + [p];
        n := n + 1;
      }
    }
    assert before[..parts.Length] == before;
    assert parts[..n] == kept && parts[n..] == before[n..];
  }

  /** `splitCSV`. */
  method SplitCSV(s: string) returns (out: seq<string>)
    ensures out == Names(s)
  {
    if s == "" {
      return [];
    }
    var split := Split(s, ',');
    var parts := new string[|split|](i requires 0 <= i < |split| => split[i]);
    assert parts[..] == split;
    var n := CompactInPlace(parts);
    out := parts[..n];
  }

  predicate CleanName(n: string) {
    n != "" && Trimmed(n) && ',' !in n
  }

  lemma {:induction false} TrimDropClean(parts: seq<string>)
    requires forall p :: p in parts ==> ',' !in p
    ensures forall n :: n in TrimDrop(parts) ==> CleanName(n)
    ensures (forall p :: p in parts ==> CleanName(p)) ==> TrimDrop(parts) == parts
  {
    if parts != [] {
      TrimSubset(parts[0]);
      TrimDropClean(parts[1..]);
      if forall p :: p in parts ==> CleanName(p) {
        assert parts[0] in parts && CleanName(parts[0]);
        TrimSpaceFixed(parts[0]);
        assert parts == [parts[0]] + parts[1..];
      }
    }
  }

  /** Reading inverts joining with commas exactly on lists of trimmed, non-empty names without
      commas; and such lists are all that reading ever yields. */
  lemma NamesInvertJoin(names: seq<string>)
    ensures Names(Join(names, ",")) == names <==> forall n :: n in names ==> CleanName(n)
  {
    var s := Join(names, ",");
    TrimDropClean(Split(s, ','));
    if forall n :: n in names ==> CleanName(n) {
      if names != [] {
        SplitJoin(names, ',');
        TrimDropClean(names);
      } else {
        assert TrimDrop([""]) == [];
      }
    }
  }

  /** Lists concatenate with a comma. */
  lemma NamesConcat(a: string, b: string)
    ensures Names(a + "," + b) == Names(a) + Names(b)
  {
    assert a + "," + b == a + [','] + b;
    SplitAppend(a, b, ',');
    TrimDropAppend(Split(a, ','), Split(b, ','));
  }

  /** The set of names read only depends on the set of trimmed parts: order, repetition, blank
      parts and the spaces around a part leave it alone. */
  lemma {:induction false} TrimDropSet(parts: seq<string>, n: string)
    ensures n in TrimDrop(parts) <==> n != "" && exists p :: p in parts && TrimSpace(p) == n
  {
    if parts != [] {
      TrimDropSet(parts[1..], n);
      assert forall p :: p in parts <==> p == parts[0] || p in parts[1..];
    }
  }

  // ----- resolving -----

  type Catalog = map<string, seq<string>>

  datatype Resolution = Disabled(names: set<string>) | UnknownCategory(category: string) | UnknownTool(tool: string)

  ghost function KnownTools(catalog: Catalog): set<string> {
    set c, t | c in catalog && t in catalog[c] :: t
  }

  /** What resolving means for the sets of names given. */
  ghost function ResolvedSet(catalog: Catalog, categories: set<string>, tools: set<string>): Option<set<string>> {
    if categories <= catalog.Keys && tools <= KnownTools(catalog)
    then Some((set c, t | c in categories && c in catalog && t in catalog[c] :: t) + tools)
    else None
  }

  /** `allKnownTools`, for any order in which the map is iterated. */
  method AllKnownTools(catalog: Catalog) returns (known: set<string>)
    ensures known == KnownTools(catalog)
  {
    known := {};
    var todo := catalog.Keys;
    while todo != {}
      invariant todo <= catalog.Keys
      invariant forall t :: t in known <==> exists c :: c in catalog.Keys - todo && t in catalog[c]
      decreases |todo|
    {
      var category :| category in todo;
      var tools := catalog[category];
      ghost var before := known;
      for i := 0 to |tools|
        invariant forall t :: t in known <==> t in before || t in tools[..i]
      {
        known := known + {tools[i]};
      }
      assert tools[..|tools|] == tools;
      ghost var done := catalog.Keys - todo;
      assert catalog.Keys - (todo - {category}) == done + {category};
      todo := todo - {category};
    }
  }

  function ToSet(names: seq<string>): set<string> {
    set n | n in names
  }

  ghost predicate FirstBad(names: seq<string>, good: set<string>, bad: string) {
    exists i :: 0 <= i < |names| && names[i] == bad && bad !in good && forall j :: 0 <= j < i ==> names[j] in good
  }

  /** The tools of the categories read so far. */
  ghost predicate Expands(catalog: Catalog, categories: seq<string>, names: set<string>) {
    && (forall c :: c in categories ==> c in catalog)
    && names == set c, t | c in ToSet(categories) && c in catalog && t in catalog[c] :: t
  }

  lemma ExpandsMore(catalog: Catalog, categories: seq<string>, category: string, names: set<string>)
    requires Expands(catalog, categories, names) && category in catalog
    ensures Expands(catalog, categories + [category], names + ToSet(catalog[category]))
  {
    assert ToSet(categories + [category]) == ToSet(categories) + {category};
  }

  lemma ToSetMore(names: seq<string>, n: string)
    ensures ToSet(names + [n]) == ToSet(names) + {n}
  {
  }

  /** The first loop of `ResolveDisabled`. */
  method ExpandCategories(catalog: Catalog, categories: seq<string>)
    returns (unknown: Option<string>, disabled: set<string>)
    ensures unknown.None? ==> Expands(catalog, categories, disabled)
    ensures unknown.Some? ==> FirstBad(categories, catalog.Keys, unknown.value)
  {
    disabled := {};
    for i := 0 to |categories|
      invariant Expands(catalog, categories[..i], disabled)
    {
      var category := categories[i];
      if category !in catalog {
        assert forall j :: 0 <= j < i ==> categories[j] in categories[..i];
        return Some(category), {};
      }
      var tools := catalog[category];
      ghost var before := disabled;
      for k := 0 to |tools|
        invariant disabled == before + ToSet(tools[..k])
      {
        assert tools[..k + 1] == tools[..k] + [tools[k]];
        ToSetMore(tools[..k], tools[k]);
        disabled := disabled + {tools[k]};
      }
      assert tools[..|tools|] == tools;
      assert categories[..i + 1] == categories[..i] + [category];
      ExpandsMore(catalog, categories[..i], category, before);
    }
    assert categories[..|categories|] == categories;
    return None, disabled;
  }

  /** The second loop of `ResolveDisabled`. */
  method AddTools(known: set<string>, tools: seq<string>, expanded: set<string>)
    returns (unknown: Option<string>, disabled: set<string>)
    ensures unknown.None? ==> ToSet(tools) <= known && disabled == expanded + ToSet(tools)
    ensures unknown.Some? ==> FirstBad(tools, known, unknown.value)
  {
    disabled := expanded;
    for i := 0 to |tools|
      invariant forall j :: 0 <= j < i ==> tools[j] in known
      invariant disabled == expanded + ToSet(tools[..i])
    {
      var tool := tools[i];
      if tool !in known {
        return Some(tool), {};
      }
      assert tools[..i + 1] == tools[..i] + [tool];
      ToSetMore(tools[..i], tool);
      disabled := disabled + {tool};
    }
    assert tools[..|tools|] == tools;
    return None, disabled;
  }

  lemma ResolvedExactly(catalog: Catalog, categories: seq<string>, tools: seq<string>)
    ensures var r := ResolvedSet(catalog, ToSet(categories), ToSet(tools));
            && (r.Some? <==>
                 && (forall c :: c in categories ==> c in catalog)
                 && (forall t :: t in tools ==> exists c :: c in catalog && t in catalog[c]))
            && (r.Some? ==> forall n ::
                 n in r.value <==> n in tools || exists c :: c in categories && c in catalog && n in catalog[c])
  {
    assert forall c :: c in categories <==> c in ToSet(categories);
    assert forall t :: t in tools <==> t in ToSet(tools);
  }

  /** `ResolveDisabled`: it succeeds exactly when every name is known, yields the union of the
      categories' tools and the tools named, and otherwise reports the first unknown name,
      categories before tools. */
  method ResolveDisabled(catalog: Catalog, disabledCategories: string, disabledTools: string) returns (r: Resolution)
    ensures (if r.Disabled? then Some(r.names) else None)
            == ResolvedSet(catalog, ToSet(Names(disabledCategories)), ToSet(Names(disabledTools)))
    ensures r.Disabled? <==>
              && (forall c :: c in Names(disabledCategories) ==> c in catalog)
              && (forall t :: t in Names(disabledTools) ==> exists c :: c in catalog && t in catalog[c])
    ensures r.Disabled? ==> forall n ::
              n in r.names <==>
              || n in Names(disabledTools)
              || exists c :: c in Names(disabledCategories) && c in catalog && n in catalog[c]
    ensures r.UnknownCategory? ==> FirstBad(Names(disabledCategories), catalog.Keys, r.category)
    ensures r.UnknownTool? ==> ToSet(Names(disabledCategories)) <= catalog.Keys
                               && FirstBad(Names(disabledTools), KnownTools(catalog), r.tool)
  {
    ResolvedExactly(catalog, Names(disabledCategories), Names(disabledTools));
    var categories := SplitCSV(disabledCategories);
    var badCategory, expanded := ExpandCategories(catalog, categories);
    if badCategory.Some? {
      assert badCategory.value in ToSet(categories) && badCategory.value !in catalog;
      return UnknownCategory(badCategory.value);
    }
    var known := AllKnownTools(catalog);
    var tools := SplitCSV(disabledTools);
    var badTool, disabled := AddTools(known, tools, expanded);
    if badTool.Some? {
      assert badTool.value in ToSet(tools) && badTool.value !in known;
      return UnknownTool(badTool.value);
    }
    return Disabled(disabled);
  }

  /** Resolving two pairs of lists together succeeds exactly when each succeeds, with the union
      of what they yield. With `NamesConcat` and `TrimDropSet` this makes the result independent
      of how names are ordered, repeated, spaced or spread over the lists. */
  lemma ResolveUnion(catalog: Catalog, c1: set<string>, t1: set<string>, c2: set<string>, t2: set<string>)
    ensures var a, b := ResolvedSet(catalog, c1, t1), ResolvedSet(catalog, c2, t2);
            ResolvedSet(catalog, c1 + c2, t1 + t2)
            == if a.Some? && b.Some? then Some(a.value + b.value) else None
  {
    var a, b := ResolvedSet(catalog, c1, t1), ResolvedSet(catalog, c2, t2);
    var both := ResolvedSet(catalog, c1 + c2, t1 + t2);
    if both.Some? {
      assert both.value == a.value + b.value;
    }
  }

  function Trims(s: string): set<string> {
    set p | p in Split(s, ',') :: TrimSpace(p)
  }

  /** Two spellings with the same trimmed parts, in any order and number, name the same set. */
  lemma SpellingIrrelevant(s1: string, s2: string)
    requires Trims(s1) - {""} == Trims(s2) - {""}
    ensures ToSet(Names(s1)) == ToSet(Names(s2))
  {
    NamesAreTrims(s1);
    NamesAreTrims(s2);
  }

  lemma NamesAreTrims(s: string)
    ensures ToSet(Names(s)) == Trims(s) - {""}
  {
    forall n ensures n in ToSet(Names(s)) <==> n in Trims(s) - {""} {
      TrimDropSet(Split(s, ','), n);
    }
  }

  // ----- the middleware -----

  datatype Tool = Tool(name: string, definition: string)

  /** A call whose parameters have an unexpected shape carries no name. */
  datatype Request = ToolsCall(name: Option<string>) | ToolsList | OtherMethod(method_: string)

  /** Listings may hold nil tools. */
  datatype Reply =
    | ToolList(tools: seq<Option<Tool>>)
    | OtherResult(payload: string)
    | Failure(message: string)
    | Rejected(tool: string)
  {
    function Tools(): seq<Option<Tool>> {
      if ToolList? then tools else []
    }
  }

  /** A reply together with the requests that reached the innermost handler. */
  datatype Handled = Handled(reply: Reply, forwarded: seq<Request>)

  type Handler = Request -> Handled

  /** The innermost handler. */
  function Server(answer: Request -> Reply): Handler {
    (r: Request) => Handled(answer(r), [r])
  }

  function CallToolName(r: Request): string {
    if r.ToolsCall? && r.name.Some? then r.name.value else ""
  }

  predicate Shown(disabled: set<string>, t: Option<Tool>) {
    t.Some? && t.value.name !in disabled
  }

  function Visible(disabled: set<string>, tools: seq<Option<Tool>>): seq<Option<Tool>> {
    Filter(t => Shown(disabled, t), tools)
  }

  /** `ToolFilter` around a handler. */
  function FilterTools(disabled: set<string>, next: Handler): Handler {
    (r: Request) =>
      if |disabled| == 0 then next(r)
      else match r
        case ToolsCall(_) =>
          var name := CallToolName(r);
          if name != "" && name in disabled then Handled(Rejected(name), []) else next(r)
        case ToolsList =>
          var res := next(r);
          if res.reply.ToolList? then res.(reply := ToolList(Visible(disabled, res.reply.tools))) else res
        case OtherMethod(_) => next(r)
  }

  class ListToolsResult {
    var tools: array<Option<Tool>>

    constructor (tools: array<Option<Tool>>)
      ensures this.tools == tools
    {
      this.tools := tools;
    }

    /** The listing branch: the result object gets a new slice; the slice it had, which the
        server may share, keeps its contents. */
    method HideTools(disabled: set<string>)
      modifies this`tools
      ensures tools[..] == Visible(disabled, old(tools[..]))
      ensures old(tools)[..] == old(tools[..])
      ensures tools == old(tools) || fresh(tools)
    {
      if tools.Length == 0 {
        return;
      }
      var listed := tools;
      var filtered: seq<Option<Tool>> := [];
      for i := 0 to listed.Length
        invariant filtered == Visible(disabled, listed[..i])
      {
        var t := listed[i];
        assert listed[..i + 1] == listed[..i] + [t];
        VisibleMore(disabled, listed[..i], t);
        if t.None? || t.value.name in disabled {
          continue;
        }
        filtered := filtered + [t];
      }
      assert listed[..listed.Length] == listed[..];
      tools := new Option<Tool>[|filtered|](i requires 0 <= i < |filtered| => filtered[i]);
      assert tools[..] == filtered;
    }
  }

  lemma VisibleMore(disabled: set<string>, tools: seq<Option<Tool>>, t: Option<Tool>)
    ensures Visible(disabled, tools + [t]) == Visible(disabled, tools) + (if Shown(disabled, t) then [t] else [])
  {
    FilterAppend(t => Shown(disabled, t), tools, [t]);
  }

  /** Hiding twice is hiding the union. */
  lemma {:induction false} VisibleTwice(d1: set<string>, d2: set<string>, tools: seq<Option<Tool>>)
    ensures Visible(d1, Visible(d2, tools)) == Visible(d1 + d2, tools)
  {
    if tools != [] {
      VisibleTwice(d1, d2, tools[1..]);
      FilterSame(t => Shown(d1 + d2, t), t => Shown(d1 + d2, t), tools[1..]);
      var head := if Shown(d2, tools[0]) then [tools[0]] else [];
      assert Visible(d2, tools) == head + Visible(d2, tools[1..]);
      FilterAppend(t => Shown(d1, t), head, Visible(d2, tools[1..]));
    }
  }

  /** Two filters, one around the other, are one filter on the union of their names, for every
      handler inside, every request, and also when one of the sets is empty. */
  lemma StackedFilters(d1: set<string>, d2: set<string>, next: Handler, r: Request)
    ensures FilterTools(d1, FilterTools(d2, next))(r) == FilterTools(d1 + d2, next)(r)
  {
    if d1 == {} {
      assert d1 + d2 == d2;
    } else if d2 == {} {
      assert d1 + d2 == d1;
    } else if r.ToolsList? && next(r).reply.ToolList? {
      VisibleTwice(d1, d2, next(r).reply.tools);
    }
  }

  /** What the filter does to any request, around any handler: it rejects the calls of disabled
      tools, which then never reach the handler, and takes nil and disabled tools out of listings;
      everything else is answered as if it were not there. */
  lemma FilterExact(disabled: set<string>, next: Handler, r: Request, shown: Option<Tool> -> bool)
    requires forall t :: shown(t) <==> t.Some? && t.value.name !in disabled
    ensures FilterTools(disabled, next)(r) ==
      if r.ToolsCall? && r.name.Some? && r.name.value != "" && r.name.value in disabled then
        Handled(Rejected(r.name.value), [])
      else if disabled != {} && r.ToolsList? && next(r).reply.ToolList? then
        Handled(ToolList(Filter(shown, next(r).reply.tools)), next(r).forwarded)
      else next(r)
  {
    if disabled == {} {
      assert FilterTools(disabled, next)(r) == next(r);
    } else if r.ToolsList? && next(r).reply.ToolList? {
      VisibleIs(disabled, next(r).reply.tools, shown);
      assert FilterTools(disabled, next)(r) == Handled(ToolList(Filter(shown, next(r).reply.tools)), next(r).forwarded);
    } else if r.ToolsCall? && r.name.Some? {
      assert CallToolName(r) == r.name.value;
    }
  }

  lemma {:induction false} VisibleIs(disabled: set<string>, tools: seq<Option<Tool>>, shown: Option<Tool> -> bool)
    requires forall t :: shown(t) <==> t.Some? && t.value.name !in disabled
    ensures Visible(disabled, tools) == Filter(shown, tools)
  {
    if tools != [] {
      VisibleIs(disabled, tools[1..], shown);
      VisibleFirst(disabled, tools);
    }
  }

  lemma VisibleFirst(disabled: set<string>, tools: seq<Option<Tool>>)
    requires tools != []
    ensures Visible(disabled, tools)
         == (if Shown(disabled, tools[0]) then [tools[0]] else []) + Visible(disabled, tools[1..])
  {
    FilterAppend(t => Shown(disabled, t), [tools[0]], tools[1..]);
    assert [tools[0]] + tools[1..] == tools;
  }

  /** Whatever is not a listing or the call of a disabled tool is passed on and answered as it is:
      every other method, calls without a name, replies that are no tool list, and everything when
      no tool is disabled. */
  lemma PassedOn(disabled: set<string>, next: Handler, r: Request)
    requires || disabled == {} || r.OtherMethod? || (r.ToolsList? && !next(r).reply.ToolList?)
             || (r.ToolsCall? && (r.name == None || r.name == Some("") || r.name.value !in disabled))
    ensures FilterTools(disabled, next)(r) == next(r)
  {
    FilterExact(disabled, next, r, t => Shown(disabled, t));
  }

  /** A call through the filter, whatever the handler inside. */
  lemma CallThrough(disabled: set<string>, answer: Request -> Reply, name: string)
    ensures var call := ToolsCall(Some(name));
            FilterTools(disabled, Server(answer))(call) ==
            if name != "" && name in disabled then Handled(Rejected(name), []) else Handled(answer(call), [call])
  {
    assert CallToolName(ToolsCall(Some(name))) == name;
    assert name in disabled ==> |disabled| != 0;
  }

  /** A listing through the filter. */
  lemma ListThrough(disabled: set<string>, answer: Request -> Reply, t: Tool)
    requires answer(ToolsList).ToolList?
    ensures var h := FilterTools(disabled, Server(answer));
            h(ToolsList).reply.ToolList?
            && (Some(t) in h(ToolsList).reply.tools <==> Some(t) in answer(ToolsList).tools && t.name !in disabled)
  {
    assert |disabled| == 0 <==> disabled == {};
  }

  ghost predicate Agrees(disabled: set<string>, answer: Request -> Reply, t: Tool) {
    var h := FilterTools(disabled, Server(answer));
    var listed := Some(t) in answer(ToolsList).Tools();
    && (t.name in disabled ==> !ListsTool(h, t) && !ForwardsCall(h, t.name))
    && (ListsTool(h, t) ==> listed && ForwardsCall(h, t.name))
    && (listed && ForwardsCall(h, t.name) ==> ListsTool(h, t))
  }

  /** Listing and calling agree for every handler inside: a disabled name is neither listed nor
      forwarded, and of the tools the server lists exactly those are shown that can be called.
      That holds for all tools precisely when the empty name is not among the disabled. */
  lemma ListingAndCallingAgree(disabled: set<string>)
    ensures (forall answer: Request -> Reply, t: Tool :: Agrees(disabled, answer, t)) <==> "" !in disabled
  {
    forall answer: Request -> Reply, t: Tool | t.name != "" || "" !in disabled
      ensures Agrees(disabled, answer, t)
    {
      CallThrough(disabled, answer, t.name);
      if answer(ToolsList).ToolList? {
        ListThrough(disabled, answer, t);
      }
    }
    var blank := Tool("", "");
    var answer := (r: Request) => ToolList([Some(blank)]);
    CallThrough(disabled, answer, "");
    assert "" in disabled ==> !Agrees(disabled, answer, blank);
  }

  ghost predicate ListsTool(h: Handler, t: Tool) {
    h(ToolsList).reply.ToolList? && Some(t) in h(ToolsList).reply.tools
  }

  ghost predicate ForwardsCall(h: Handler, name: string) {
    h(ToolsCall(Some(name))).forwarded != []
  }
}
