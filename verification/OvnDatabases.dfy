/** OVN database files of a must-gather: naming, listing, pairing with nodes, and the guards
    in front of a query. */
module OvnDatabases {
  import opened Strings
  import opened Paths

  datatype Side = North | South

  function Suffix(side: Side): string {
    match side case North => "_nbdb" case South => "_sbdb"
  }

  function SchemaName(side: Side): string {
    match side case North => "OVN_Northbound" case South => "OVN_Southbound"
  }

  datatype DirEntry = DirEntry(name: string, isDir: bool)

  // ----- listing -----

  /** A file that `listOvnDatabases` takes for a database of this side. */
  predicate Qualifies(e: DirEntry, side: Side) {
    !e.isDir && HasSuffix(e.name, Suffix(side)) && e.name != Suffix(side)
  }

  /** `m` maps exactly the keys that have a file `<key>_<side>`, each to that file. */
  ghost predicate IsListing(m: map<string, string>, entries: seq<DirEntry>, side: Side) {
    && (forall k :: k in m <==> k != "" && DirEntry(k + Suffix(side), false) in entries)
    && (forall k :: k in m ==> m[k] == k + Suffix(side))
  }

  lemma SuffixShape(side: Side)
    ensures |Suffix(side)| == 5 && Suffix(side)[0] == '_' && '_' !in Suffix(side)[1..]
  {
    assert '_' !in "nbdb" && '_' !in "sbdb";
    assert Suffix(side)[1..] == if side == North then "nbdb" else "sbdb";
  }

  lemma LastUnderscore(name: string, suffix: string)
    requires HasSuffix(name, suffix) && suffix != "" && suffix[0] == '_' && '_' !in suffix[1..]
    ensures LastIndex(name, '_') == |name| - |suffix|
  {
    var i := |name| - |suffix|;
    assert name[i..][0] == name[i] && name[i + 1..] == name[i..][1..];
    LastIndexUnique(name, '_', i);
  }

  lemma SuffixRest(name: string, suffix: string)
    requires HasSuffix(name, suffix)
    ensures name == name[..|name| - |suffix|] + suffix
  {
  }

  lemma KeyOf(name: string, side: Side)
    requires HasSuffix(name, Suffix(side))
    ensures LastIndex(name, '_') == |name| - 5
    ensures name == name[..|name| - 5] + Suffix(side)
  {
    var suffix := Suffix(side);
    SuffixShape(side);
    LastUnderscore(name, suffix);
    SuffixRest(name, suffix);
  }

  lemma SuffixOf(key: string, side: Side)
    ensures HasSuffix(key + Suffix(side), Suffix(side))
    ensures (key + Suffix(side))[..|key|] == key
  {
  }

  /** `listOvnDatabases`, once the directory has been read. */
  method ListOvnDatabases(entries: seq<DirEntry>, side: Side) returns (m: map<string, string>)
    ensures IsListing(m, entries, side)
    ensures forall k :: k in m <==>
              k != "" && DirEntry(k + (if side == North then "_nbdb" else "_sbdb"), false) in entries
    ensures forall k :: k in m ==> m[k] == k + (if side == North then "_nbdb" else "_sbdb")
  {
    m := map[];
    for i := 0 to |entries|
      invariant IsListing(m, entries[..i], side)
    {
      var e := entries[i];
      assert entries[..i + 1] == entries[..i] + [e];
      if !e.isDir {
        var last := LastIndex(e.name, '_');
        if HasSuffix(e.name, Suffix(side)) {
          KeyOf(e.name, side);
        }
        forall k | e.name == k + Suffix(side) ensures HasSuffix(e.name, Suffix(side)) && k == e.name[..|e.name| - 5] {
          SuffixOf(k, side);
        }
        if last == -1 || last == 0 {
          continue;
        }
        if HasSuffix(e.name, Suffix(side)) {
          m := m[e.name[..last] := e.name];
        }
      }
    }
    assert entries[..|entries|] == entries;
  }

  lemma ListedQualifies(m: map<string, string>, entries: seq<DirEntry>, side: Side, k: string)
    requires IsListing(m, entries, side) && k in m
    ensures DirEntry(m[k], false) in entries && Qualifies(DirEntry(m[k], false), side)
    ensures |m[k]| >= 5 && m[k][..|m[k]| - 5] == k
  {
    SuffixOf(k, side);
  }

  lemma QualifyingIsListed(m: map<string, string>, entries: seq<DirEntry>, side: Side, e: DirEntry)
    requires IsListing(m, entries, side) && e in entries && Qualifies(e, side)
    ensures e.name in m.Values
  {
    KeyOf(e.name, side);
    var k := e.name[..|e.name| - 5];
    assert k != "" && DirEntry(k + Suffix(side), false) == e;
    assert k in m && m[k] == e.name;
  }

  /** Nothing is lost: the listed values are exactly the qualifying names, and no two of them
      share a key. */
  lemma ListingLossless(m: map<string, string>, entries: seq<DirEntry>, side: Side)
    requires IsListing(m, entries, side)
    ensures m.Values == set e | e in entries && Qualifies(e, side) :: e.name
    ensures forall j, k :: j in m && k in m && m[j] == m[k] ==> j == k
  {
    forall k | k in m ensures DirEntry(m[k], false) in entries && Qualifies(DirEntry(m[k], false), side) {
      ListedQualifies(m, entries, side, k);
    }
    forall e | e in entries && Qualifies(e, side) ensures e.name in m.Values {
      QualifyingIsListed(m, entries, side, e);
    }
    forall j, k | j in m && k in m && m[j] == m[k] ensures j == k {
      ListedQualifies(m, entries, side, j);
      ListedQualifies(m, entries, side, k);
    }
  }

  /** No file is listed on both sides. */
  lemma SidesDisjoint(north: map<string, string>, south: map<string, string>, entries: seq<DirEntry>)
    requires IsListing(north, entries, North) && IsListing(south, entries, South)
    ensures north.Values !! south.Values
  {
    ListingLossless(north, entries, North);
    ListingLossless(south, entries, South);
    forall e: DirEntry ensures !(Qualifies(e, North) && Qualifies(e, South)) {
      OneSide(e.name);
    }
    forall v | v in north.Values ensures v !in south.Values {
      var e :| e in entries && Qualifies(e, North) && e.name == v;
      OneSide(v);
    }
  }

  lemma OneSide(name: string)
    ensures !(HasSuffix(name, "_nbdb") && HasSuffix(name, "_sbdb"))
  {
    assert "_nbdb"[1] != "_sbdb"[1];
    assert |name| >= 5 ==> name[|name| - 5..][1] == name[|name| - 4];
  }

  // ----- querying -----

  datatype Plan = BadName | Traversal | BadTable | Query(schema: string, file: string)

  predicate TableChar(c: char) {
    IsLetter(c) || IsDigit(c) || c == '_'
  }

  /** `^[A-Z][a-zA-Z0-9_]*$` */
  predicate ValidTable(table: string) {
    table != "" && 'A' <= table[0] <= 'Z' && forall c :: c in table ==> TableChar(c)
  }

  /** The guards and the schema choice of `QueryDatabase`. */
  function PlanQuery(dbName: string, table: string): Plan {
    if dbName == "" || (!HasSuffix(dbName, "_nbdb") && !HasSuffix(dbName, "_sbdb")) then BadName
    else if Base(dbName) != dbName then Traversal
    else if !ValidTable(table) then BadTable
    else Query(if HasSuffix(dbName, "_nbdb") then SchemaName(North) else SchemaName(South), dbName)
  }

  /** What a caller has to know: a name is queried, with the schema of its side, exactly when it
      has that side's suffix and no slash. */
  lemma PlanQueryExact(dbName: string, table: string, side: Side)
    requires ValidTable(table)
    ensures PlanQuery(dbName, table) == Query(SchemaName(side), dbName) <==>
            HasSuffix(dbName, Suffix(side)) && '/' !in dbName
  {
    BaseFixed(dbName);
    OneSide(dbName);
    SchemasDiffer();
    assert dbName != "/" || !HasSuffix(dbName, Suffix(side)) by { SuffixShape(side); }
    if HasSuffix(dbName, "_nbdb") || HasSuffix(dbName, "_sbdb") {
      var own := if HasSuffix(dbName, "_nbdb") then North else South;
      assert HasSuffix(dbName, Suffix(side)) <==> own == side;
      assert PlanQuery(dbName, table) == if Base(dbName) != dbName then Traversal else Query(SchemaName(own), dbName);
    }
  }

  lemma ValidTableExact(table: string)
    ensures ValidTable(table) <==>
            && table != "" && table[0] in "ABCDEFGHIJKLMNOPQRSTUVWXYZ"
            && forall c :: c in table ==>
                 'a' <= c <= 'z' || 'A' <= c <= 'Z' || '0' <= c <= '9' || c == '_'
  {
    if table != "" {
      UpperCase(table[0]);
    }
  }

  lemma UpperCase(c: char)
    ensures 'A' <= c <= 'Z' <==> c in "ABCDEFGHIJKLMNOPQRSTUVWXYZ"
  {
    var letters := "ABCDEFGHIJKLMNOPQRSTUVWXYZ";
    if 'A' <= c <= 'Z' {
      assert letters[c as int - 'A' as int] == c;
    }
  }

  /** The outcome for any name and table: which guard stops it, or which schema is asked of which
      file. */
  lemma PlanQueryCases(dbName: string, table: string)
    ensures PlanQuery(dbName, table) ==
            if !HasSuffix(dbName, "_nbdb") && !HasSuffix(dbName, "_sbdb") then BadName
            else if '/' in dbName then Traversal
            else if !ValidTable(table) then BadTable
            else Query(if HasSuffix(dbName, "_nbdb") then "OVN_Northbound" else "OVN_Southbound", dbName)
  {
    BaseFixed(dbName);
    SchemaNames();
    assert dbName == "/" ==> |dbName| == 1;
  }

  lemma SchemaNames()
    ensures SchemaName(North) == "OVN_Northbound" && SchemaName(South) == "OVN_Southbound"
  {
    assert "OVN_Northbound"[4] == 'N' && "OVN_Southbound"[4] == 'S';
  }

  lemma SchemasDiffer()
    ensures SchemaName(North) != SchemaName(South)
  {
    assert SchemaName(North)[4] != SchemaName(South)[4];
  }

  /** Every listed name can be queried, and its own side's schema is the one used; the one name
      that can be queried without ever being listed is the bare suffix. */
  lemma ListedIsQueryable(m: map<string, string>, entries: seq<DirEntry>, side: Side, table: string)
    requires IsListing(m, entries, side) && ValidTable(table)
    requires forall e :: e in entries ==> '/' !in e.name
    ensures m.Values == set e | e in entries && !e.isDir
                                && PlanQuery(e.name, table) == Query(SchemaName(side), e.name)
                                && e.name != Suffix(side) :: e.name
  {
    ListingLossless(m, entries, side);
    forall e | e in entries
      ensures PlanQuery(e.name, table) == Query(SchemaName(side), e.name) <==> HasSuffix(e.name, Suffix(side))
    {
      PlanQueryExact(e.name, table, side);
    }
  }

  /** The file a planned query opens lies directly inside the database store. */
  lemma QueryStaysInStore(store: string, dbName: string, table: string)
    requires IsAbs(store)
    requires PlanQuery(dbName, table).Query?
    ensures Comps(JoinPath(store, dbName)) == Comps(store) + [dbName]
  {
    BaseFixed(dbName);
    assert |dbName| >= 5;
    JoinPlain(store, dbName);
  }

  // ----- pairing databases with nodes -----

  datatype Pod = Pod(name: string, node: string)

  datatype DbInfo = DbInfo(database: string, node: string)

  /** One pod against the files not paired yet. */
  predicate Pairs(files: map<string, string>, pod: Pod) {
    pod.name in files && pod.node != ""
  }

  /** The pairing loop without its early exit: what was paired and what is left over. */
  function PairAll(pods: seq<Pod>, files: map<string, string>): (seq<DbInfo>, map<string, string>)
  {
    if pods == [] then ([], files)
    else if !Pairs(files, pods[0]) then PairAll(pods[1..], files)
    else
      var (rest, left) := PairAll(pods[1..], files - {pods[0].name});
      ([DbInfo(files[pods[0].name], pods[0].node)] + rest, left)
  }

  lemma {:induction false} NothingToPair(pods: seq<Pod>)
    ensures PairAll(pods, map[]) == ([], map[])
  {
    if pods != [] {
      NothingToPair(pods[1..]);
    }
  }

  /** The loop of `getDatabaseToNodeMapping`, which deletes from the map as it goes and stops
      when the map is empty. The early stop changes nothing. */
  method GetDatabaseToNodeMapping(pods: seq<Pod>, dbFiles: map<string, string>)
    returns (data: seq<DbInfo>, left: map<string, string>)
    ensures (data, left) == PairAll(pods, dbFiles)
  {
    data := [];
    left := dbFiles;
    var i := 0;
    while i < |pods|
      invariant 0 <= i <= |pods|
      invariant PairAll(pods, dbFiles).0 == data + PairAll(pods[i..], left).0
      invariant PairAll(pods, dbFiles).1 == PairAll(pods[i..], left).1
    {
      if |left| == 0 {
        assert left == map[];
        NothingToPair(pods[i..]);
        break;
      }
      var pod := pods[i];
      assert pods[i..][1..] == pods[i + 1..];
      i := i + 1;
      if pod.name !in left {
        continue;
      }
      if pod.node == "" {
        continue;
      }
      ghost var rest := PairAll(pods[i..], left - {pod.name}).0;
      assert data + ([DbInfo(left[pod.name], pod.node)] + rest) == data + [DbInfo(left[pod.name], pod.node)] + rest;
      data := data + [DbInfo(left[pod.name], pod.node)];
      left := left - {pod.name};
    }
    assert PairAll(pods[i..], left) == ([], left);
    assert PairAll(pods, dbFiles).0 == data;
  }

  /** Pod `i` is the first one of its name that has been scheduled. */
  ghost predicate FirstScheduled(pods: seq<Pod>, i: nat) {
    && i < |pods|
    && pods[i].node != ""
    && forall j :: 0 <= j < i && pods[j].name == pods[i].name ==> pods[j].node == ""
  }

  ghost predicate Chosen(pods: seq<Pod>, files: map<string, string>, i: nat) {
    FirstScheduled(pods, i) && pods[i].name in files
  }

  lemma ChosenTail(pods: seq<Pod>, files: map<string, string>, i: nat)
    requires pods != []
    ensures var files1 := if Pairs(files, pods[0]) then files - {pods[0].name} else files;
            Chosen(pods, files, i + 1) <==> Chosen(pods[1..], files1, i)
    ensures Chosen(pods, files, 0) <==> Pairs(files, pods[0])
  {
    var tail := pods[1..];
    if i < |tail| {
      assert tail[i] == pods[i + 1];
      assert forall j :: 0 <= j < i ==> tail[j] == pods[j + 1];
      assert FirstScheduled(pods, i + 1) ==> FirstScheduled(tail, i);
      if FirstScheduled(tail, i) && (pods[0].name != tail[i].name || pods[0].node == "") {
        forall j | 0 <= j < i + 1 && pods[j].name == pods[i + 1].name ensures pods[j].node == "" {
          if j > 0 { assert tail[j - 1] == pods[j]; }
        }
      }
    }
  }

  function Shift(ix: seq<nat>): seq<nat> {
    seq(|ix|, k requires 0 <= k < |ix| => ix[k] + 1)
  }

  lemma ShiftMembers(ix: seq<nat>, i: nat)
    ensures i in Shift(ix) <==> i > 0 && i - 1 in ix
    ensures Increasing(ix) ==> Increasing(Shift(ix)) && Increasing([0] + Shift(ix))
  {
    if i > 0 && i - 1 in ix {
      var k :| 0 <= k < |ix| && ix[k] == i - 1;
      assert Shift(ix)[k] == i;
    }
  }

  /** Line `k` of the output is about pod `ix[k]`. */
  ghost predicate PairedAt(pods: seq<Pod>, files: map<string, string>, ix: seq<nat>, data: seq<DbInfo>) {
    |data| == |ix| && forall k :: 0 <= k < |ix| ==>
      ix[k] < |pods| && pods[ix[k]].name in files && data[k] == DbInfo(files[pods[ix[k]].name], pods[ix[k]].node)
  }

  lemma PairedAtStep(pods: seq<Pod>, files: map<string, string>, tail: seq<nat>, rest: seq<DbInfo>)
    requires pods != []
    requires PairedAt(pods[1..], if Pairs(files, pods[0]) then files - {pods[0].name} else files, tail, rest)
    ensures PairedAt(pods, files, Shift(tail), rest)
    ensures Pairs(files, pods[0]) ==>
              PairedAt(pods, files, [0] + Shift(tail), [DbInfo(files[pods[0].name], pods[0].node)] + rest)
  {
  }

  /** The positions of the chosen pods. */
  ghost predicate AllChosen(pods: seq<Pod>, files: map<string, string>, ix: seq<nat>) {
    Increasing(ix) && forall i: nat :: i in ix <==> Chosen(pods, files, i)
  }

  lemma AllChosenStep(pods: seq<Pod>, files: map<string, string>, tail: seq<nat>)
    requires pods != []
    requires AllChosen(pods[1..], if Pairs(files, pods[0]) then files - {pods[0].name} else files, tail)
    ensures AllChosen(pods, files, if Pairs(files, pods[0]) then [0] + Shift(tail) else Shift(tail))
  {
    ShiftMembers(tail, 0);
    var ix := if Pairs(files, pods[0]) then [0] + Shift(tail) else Shift(tail);
    forall i: nat ensures i in ix <==> Chosen(pods, files, i) {
      ShiftMembers(tail, i);
      ChosenTail(pods, files, if i == 0 then 0 else i - 1);
    }
  }

  /** The output is, in list order, one line for each pod that is the first scheduled one of its
      name and whose database exists. */
  lemma {:induction false} PairedInOrder(pods: seq<Pod>, files: map<string, string>) returns (ix: seq<nat>)
    ensures AllChosen(pods, files, ix)
    ensures PairedAt(pods, files, ix, PairAll(pods, files).0)
    decreases |pods|
  {
    if pods == [] {
      ix := [];
    } else {
      var files1 := if Pairs(files, pods[0]) then files - {pods[0].name} else files;
      var tail := PairedInOrder(pods[1..], files1);
      PairedAtStep(pods, files, tail, PairAll(pods[1..], files1).0);
      AllChosenStep(pods, files, tail);
      ix := if Pairs(files, pods[0]) then [0] + Shift(tail) else Shift(tail);
    }
  }

  /** What is left over is exactly what no scheduled pod is named after. */
  lemma {:induction false} LeftOver(pods: seq<Pod>, files: map<string, string>)
    ensures PairAll(pods, files).1 == files - set p | p in pods && p.node != "" :: p.name
    decreases |pods|
  {
    var names := set p | p in pods && p.node != "" :: p.name;
    if pods == [] {
      assert names == {};
    } else {
      var p0 := pods[0];
      var rest := set p | p in pods[1..] && p.node != "" :: p.name;
      assert pods == [p0] + pods[1..];
      assert names == rest + (if p0.node != "" then {p0.name} else {});
      LeftOver(pods[1..], if Pairs(files, p0) then files - {p0.name} else files);
    }
  }

  /** Each database is listed at most once, and listed and left-over databases together are
      the ones there were. */
  lemma PairedOnce(pods: seq<Pod>, files: map<string, string>)
    requires forall j, k :: j in files && k in files && files[j] == files[k] ==> j == k
    ensures var (data, left) := PairAll(pods, files);
            && (forall a, b :: 0 <= a < b < |data| ==> data[a].database != data[b].database)
            && (set d | d in data :: d.database) !! left.Values
            && (set d | d in data :: d.database) + left.Values == files.Values
  {
    var (data, left) := PairAll(pods, files);
    var ix := PairedInOrder(pods, files);
    LeftOver(pods, files);
    forall a, b | 0 <= a < b < |data| ensures data[a].database != data[b].database {
      assert ix[a] in ix && ix[b] in ix;
      assert Chosen(pods, files, ix[a]) && Chosen(pods, files, ix[b]);
      assert pods[ix[a]].name != pods[ix[b]].name;
    }
    var listed := set d | d in data :: d.database;
    forall v | v in listed ensures v in files.Values && v !in left.Values {
      var k :| 0 <= k < |data| && data[k].database == v;
      assert ix[k] in ix;
      assert pods[ix[k]] in pods;
    }
    forall v | v in files.Values ensures v in listed || v in left.Values {
      var key :| key in files && files[key] == v;
      if key in left {
        assert left[key] == v;
      } else {
        var p :| p in pods && p.node != "" && p.name == key;
        var n :| 0 <= n < |pods| && pods[n] == p;
        var i := FirstOf(pods, n);
        assert Chosen(pods, files, i) && i in ix;
        var k :| 0 <= k < |ix| && ix[k] == i;
        assert data[k].database == v && data[k] in data;
      }
    }
  }

  lemma {:induction false} FirstOf(pods: seq<Pod>, n: nat) returns (i: nat)
    requires n < |pods| && pods[n].node != ""
    ensures FirstScheduled(pods, i) && pods[i].name == pods[n].name
    decreases n
  {
    if j :| 0 <= j < n && pods[j].name == pods[n].name && pods[j].node != "" {
      i := FirstOf(pods, j);
    } else {
      i := n;
    }
  }
}
