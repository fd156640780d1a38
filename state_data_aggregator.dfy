/**
 * `twitter/state_data_aggregator.py`: the fixed state-name -> two-letter-code table, and the
 * two maintenance passes over the per-state output directories: `aggregate` appends every
 * `{directory}/{state}.txt` onto `{directory}/{code}.txt`, and `delete_state_files` removes
 * every `{directory}/{state}.txt`.
 */
module StateDataAggregator {
  import opened Files

  /** A table of (state or territory name, two-letter code) entries, in dict order. */
  type Table = seq<(string, string)>

  // `state_map`, written in four parts so that each part is small enough to reason about
  // entry by entry.

  function StateMapPart1(): Table {
    [
      ("Alabama", "AL"),
      ("Alaska", "AK"),
      ("Arizona", "AZ"),
      ("Arkansas", "AR"),
      ("California", "CA"),
      ("Colorado", "CO"),
      ("Connecticut", "CT"),
      ("Delaware", "DE"),
      ("District of Columbia", "DC"),
      ("Florida", "FL"),
      ("Georgia", "GA"),
      ("Hawaii", "HI"),
      ("Idaho", "ID"),
      ("Illinois", "IL")
    ]
  }

  function StateMapPart2(): Table {
    [
      ("Indiana", "IN"),
      ("Iowa", "IA"),
      ("Kansas", "KS"),
      ("Kentucky", "KY"),
      ("Louisiana", "LA"),
      ("Maine", "ME"),
      ("Maryland", "MD"),
      ("Massachusetts", "MA"),
      ("Michigan", "MI"),
      ("Minnesota", "MN"),
      ("Mississippi", "MS"),
      ("Missouri", "MO"),
      ("Montana", "MT")
    ]
  }

  function StateMapPart3(): Table {
    [
      ("Nebraska", "NE"),
      ("Nevada", "NV"),
      ("New Hampshire", "NH"),
      ("New Jersey", "NJ"),
      ("New Mexico", "NM"),
      ("New York", "NY"),
      ("North Carolina", "NC"),
      ("North Dakota", "ND"),
      ("Ohio", "OH"),
      ("Oklahoma", "OK"),
      ("Oregon", "OR"),
      ("Pennsylvania", "PA"),
      ("Puerto Rico", "PR")
    ]
  }

  function StateMapPart4(): Table {
    [
      ("Rhode Island", "RI"),
      ("South Carolina", "SC"),
      ("South Dakota", "SD"),
      ("Tennessee", "TN"),
      ("Texas", "TX"),
      ("Utah", "UT"),
      ("Vermont", "VT"),
      ("Virgin Islands", "VI"),
      ("Virginia", "VA"),
      ("Washington", "WA"),
      ("West Virginia", "WV"),
      ("Wisconsin", "WI"),
      ("Wyoming", "WY")
    ]
  }

  /** `state_map`: 50 states, the District of Columbia, Puerto Rico and the Virgin Islands. */
  function StateMap(): (t: Table)
    ensures |t| == 53
  {
    StateMapPart1() + StateMapPart2() + StateMapPart3() + StateMapPart4()
  }

  const GeoTweetIdDir: string := "../data/tweets/geo_covid_tweet_ids/geo"
  const GeoTweetTextDir: string := "../data/tweets/geo_covid_tweets"

  /** The two directories `aggregate` and `delete_state_files` work on. */
  predicate IsGeoDir(d: string) {
    d == GeoTweetIdDir || d == GeoTweetTextDir
  }

  /** Every code has two characters and no name has two characters. */
  predicate Shaped(t: Table) {
    forall i :: 0 <= i < |t| ==> |t[i].1| == 2 && |t[i].0| != 2
  }

  predicate CodesDistinct(t: Table) {
    forall i, j :: 0 <= i < j < |t| ==> t[i].1 != t[j].1
  }

  predicate NamesDistinct(t: Table) {
    forall i, j :: 0 <= i < j < |t| ==> t[i].0 != t[j].0
  }

  /** No code of `a` is a code of `b`, and no name of `a` is a name of `b`. */
  predicate Apart(a: Table, b: Table) {
    forall i, j :: 0 <= i < |a| && 0 <= j < |b| ==> a[i].1 != b[j].1 && a[i].0 != b[j].0
  }

  predicate WellFormed(t: Table) {
    Shaped(t) && CodesDistinct(t) && NamesDistinct(t)
  }

  /** Joining two well-formed tables that share no name and no code is well formed. */
  lemma {:induction false} WellFormedAppend(a: Table, b: Table)
    requires WellFormed(a) && WellFormed(b) && Apart(a, b)
    ensures WellFormed(a + b)
  {
    var t := a + b;
    forall i, j | 0 <= i < j < |t|
      ensures t[i].1 != t[j].1 && t[i].0 != t[j].0
    {
      if j < |a| {
      } else if i >= |a| {
        assert t[i] == b[i - |a|] && t[j] == b[j - |a|];
      } else {
        assert t[i] == a[i] && t[j] == b[j - |a|];
      }
    }
  }

  /** Parts with no shared names or codes stay apart from their join. */
  lemma {:induction false} ApartAppend(a: Table, b: Table, c: Table)
    requires Apart(a, c) && Apart(b, c)
    ensures Apart(a + b, c)
  {
    forall i, j | 0 <= i < |a + b| && 0 <= j < |c|
      ensures (a + b)[i].1 != c[j].1 && (a + b)[i].0 != c[j].0
    {
      if i >= |a| {
        assert (a + b)[i] == b[i - |a|];
      }
    }
  }

  // Entry-by-entry facts about the parts, one small proof each.
  lemma Part1Shaped() ensures Shaped(StateMapPart1()) {}
  lemma Part1CodesDistinct() ensures CodesDistinct(StateMapPart1()) {}
  lemma Part1NamesDistinct() ensures NamesDistinct(StateMapPart1()) {}
  lemma Part2Shaped() ensures Shaped(StateMapPart2()) {}
  lemma Part2CodesDistinct() ensures CodesDistinct(StateMapPart2()) {}
  lemma Part2NamesDistinct() ensures NamesDistinct(StateMapPart2()) {}
  lemma Part3Shaped() ensures Shaped(StateMapPart3()) {}
  lemma Part3CodesDistinct() ensures CodesDistinct(StateMapPart3()) {}
  lemma Part3NamesDistinct() ensures NamesDistinct(StateMapPart3()) {}
  lemma Part4Shaped() ensures Shaped(StateMapPart4()) {}
  lemma Part4CodesDistinct() ensures CodesDistinct(StateMapPart4()) {}
  lemma Part4NamesDistinct() ensures NamesDistinct(StateMapPart4()) {}
  lemma Parts12Apart() ensures Apart(StateMapPart1(), StateMapPart2()) {}
  lemma Parts13Apart() ensures Apart(StateMapPart1(), StateMapPart3()) {}
  lemma Parts14Apart() ensures Apart(StateMapPart1(), StateMapPart4()) {}
  lemma Parts23Apart() ensures Apart(StateMapPart2(), StateMapPart3()) {}
  lemma Parts24Apart() ensures Apart(StateMapPart2(), StateMapPart4()) {}
  lemma Parts34Apart() ensures Apart(StateMapPart3(), StateMapPart4()) {}

  /**
   * The table has 53 entries; every code has two characters and no name has two; codes are
   * pairwise distinct (so the map is injective) and so are names.
   */
  lemma StateMapWellFormed()
    ensures |StateMap()| == 53
    ensures WellFormed(StateMap())
  {
    var p1, p2, p3, p4 := StateMapPart1(), StateMapPart2(), StateMapPart3(), StateMapPart4();
    Part1Shaped(); Part2Shaped(); Part3Shaped(); Part4Shaped();
    Part1CodesDistinct(); Part2CodesDistinct(); Part3CodesDistinct(); Part4CodesDistinct();
    Part1NamesDistinct(); Part2NamesDistinct(); Part3NamesDistinct(); Part4NamesDistinct();
    Parts12Apart(); Parts13Apart(); Parts14Apart(); Parts23Apart(); Parts24Apart(); Parts34Apart();
    WellFormedAppend(p1, p2);
    ApartAppend(p1, p2, p3);
    WellFormedAppend(p1 + p2, p3);
    ApartAppend(p1, p2, p4);
    ApartAppend(p1 + p2, p3, p4);
    WellFormedAppend(p1 + p2 + p3, p4);
  }

  /** Files of the two directories never collide: equal paths mean equal directory and name. */
  lemma {:induction false} GeoPathsEqual(d1: string, a: string, d2: string, b: string)
    requires IsGeoDir(d1) && IsGeoDir(d2)
    ensures Path(d1, a) == Path(d2, b) <==> d1 == d2 && a == b
  {
    if d1 != d2 {
      assert Path(d1, a)[30] == d1[30] && Path(d2, b)[30] == d2[30];
      assert GeoTweetIdDir[30] == '_' && GeoTweetTextDir[30] == 's';
      assert Path(d1, a)[30] != Path(d2, b)[30];
    }
    if d1 == d2 {
      PathInjective(d1, a, b);
    }
  }

  // ---------------------------------------------------------------------------------------
  // The effect of each operation on the store, as functions of the old store.

  /** `aggregate_state`: when `{state}.txt` exists, its content is appended to `{code}.txt`. */
  function AggregateStateSpec(files: map<string, string>, directory: string, state: string,
                              code: string): map<string, string>
  {
    var src := Path(directory, state);
    if src in files then AppendSpec(files, Path(directory, code), files[src]) else files
  }

  /** One iteration of `aggregate`: the entry's id directory, then its text directory. */
  function AggregateEntry(files: map<string, string>, entry: (string, string)): map<string, string>
  {
    AggregateStateSpec(AggregateStateSpec(files, GeoTweetIdDir, entry.0, entry.1),
                       GeoTweetTextDir, entry.0, entry.1)
  }

  /**
   * A single `aggregate_state` call: when `{state}.txt` exists its content is appended to
   * `{code}.txt`, otherwise nothing changes; no file other than `{code}.txt` changes, and in
   * particular not `{state}.txt` itself, whenever name and code differ in length.
   */
  lemma AggregateStateEffect(files: map<string, string>, directory: string, state: string, code: string)
    requires |state| != |code|
    ensures var r := AggregateStateSpec(files, directory, state, code);
            MergedInto(files, r, directory, (state, code)) &&
            (forall p :: p != Path(directory, code) ==> SameFile(files, r, p))
  {
    PathInjective(directory, state, code);
  }

  /** `aggregate` over the entries of `t`, in order. */
  function AggregateSpec(files: map<string, string>, t: Table): map<string, string>
  {
    if t == [] then files else AggregateEntry(AggregateSpec(files, t[..|t| - 1]), t[|t| - 1])
  }

  /** `delete_state_file`: `{state}.txt` no longer exists. */
  function DeleteStateFileSpec(files: map<string, string>, directory: string, state: string)
    : map<string, string>
  {
    files - {Path(directory, state)}
  }

  /** One iteration of `delete_state_files`. */
  function DeleteEntry(files: map<string, string>, entry: (string, string)): map<string, string>
  {
    DeleteStateFileSpec(DeleteStateFileSpec(files, GeoTweetIdDir, entry.0), GeoTweetTextDir, entry.0)
  }

  /** `delete_state_files` over the entries of `t`, in order. */
  function DeleteSpec(files: map<string, string>, t: Table): map<string, string>
  {
    if t == [] then files else DeleteEntry(DeleteSpec(files, t[..|t| - 1]), t[|t| - 1])
  }

  /** The code files of `t`, in both directories. */
  function CodePaths(t: Table): set<string>
  {
    if t == [] then {}
    else CodePaths(t[..|t| - 1]) + {Path(GeoTweetIdDir, t[|t| - 1].1), Path(GeoTweetTextDir, t[|t| - 1].1)}
  }

  /** The name files of `t`, in both directories. */
  function NamePaths(t: Table): set<string>
  {
    if t == [] then {}
    else NamePaths(t[..|t| - 1]) + {Path(GeoTweetIdDir, t[|t| - 1].0), Path(GeoTweetTextDir, t[|t| - 1].0)}
  }

  /** After `aggregate`, entry's code file in `directory` holds its old content then the state file's. */
  predicate MergedInto(before: map<string, string>, after: map<string, string>, directory: string,
                       entry: (string, string))
  {
    var src := Path(directory, entry.0);
    var dst := Path(directory, entry.1);
    if src in before then dst in after && after[dst] == Content(before, dst) + before[src]
    else SameFile(before, after, dst)
  }

  // ---------------------------------------------------------------------------------------
  // The operations, on a file store.

  /** `aggregate_state(directory, state, code)`. */
  method AggregateState(store: FileStore, directory: string, state: string, code: string)
    modifies store
    ensures store.files == AggregateStateSpec(old(store.files), directory, state, code)
    ensures Path(directory, state) !in old(store.files) ==> store.files == old(store.files)
  {
    var src := Path(directory, state);
    if store.Exists(src) {
      var stateLines := store.files[src];
      store.Append(Path(directory, code), stateLines);
    }
  }

  /** `aggregate()`: every entry of the table, id directory then text directory. */
  method Aggregate(store: FileStore)
    modifies store
    ensures store.files == AggregateSpec(old(store.files), StateMap())
  {
    AggregateTable(store, StateMap());
  }

  /** The loop of `aggregate()`, over the entries of `t`. */
  method AggregateTable(store: FileStore, t: Table)
    modifies store
    ensures store.files == AggregateSpec(old(store.files), t)
  {
    for i := 0 to |t|
      invariant store.files == AggregateSpec(old(store.files), t[..i])
    {
      AggregateState(store, GeoTweetIdDir, t[i].0, t[i].1);
      AggregateState(store, GeoTweetTextDir, t[i].0, t[i].1);
      assert t[..i + 1][..i] == t[..i];
    }
    assert t[..|t|] == t;
  }

  /** `delete_state_file(directory, state)`. */
  method DeleteStateFile(store: FileStore, directory: string, state: string)
    modifies store
    ensures store.files == DeleteStateFileSpec(old(store.files), directory, state)
    ensures Path(directory, state) !in old(store.files) ==> store.files == old(store.files)
  {
    var fileName := Path(directory, state);
    if store.Exists(fileName) {
      store.Remove(fileName);
    }
  }

  /** `delete_state_files()`: every entry's name file, in both directories. */
  method DeleteStateFiles(store: FileStore)
    modifies store
    ensures store.files == DeleteSpec(old(store.files), StateMap())
  {
    DeleteTable(store, StateMap());
  }

  /** The loop of `delete_state_files()`, over the entries of `t`. */
  method DeleteTable(store: FileStore, t: Table)
    modifies store
    ensures store.files == DeleteSpec(old(store.files), t)
  {
    for i := 0 to |t|
      invariant store.files == DeleteSpec(old(store.files), t[..i])
    {
      DeleteStateFile(store, GeoTweetIdDir, t[i].0);
      DeleteStateFile(store, GeoTweetTextDir, t[i].0);
      assert t[..i + 1][..i] == t[..i];
    }
    assert t[..|t|] == t;
  }

  // ---------------------------------------------------------------------------------------
  // What the passes do to the store, over any well-formed table (in particular `StateMap()`).

  lemma {:induction false} WellFormedPrefix(t: Table, n: nat)
    requires WellFormed(t) && n <= |t|
    ensures WellFormed(t[..n])
  {
    assert forall i :: 0 <= i < n ==> t[..n][i] == t[i];
  }

  /** A code that no entry of `t` has is not among `t`'s code files. */
  lemma {:induction false} NotInCodePaths(t: Table, d: string, x: string)
    requires IsGeoDir(d)
    requires forall k :: 0 <= k < |t| ==> t[k].1 != x
    ensures Path(d, x) !in CodePaths(t)
  {
    if t != [] {
      var e := t[|t| - 1];
      NotInCodePaths(t[..|t| - 1], d, x);
      GeoPathsEqual(d, x, GeoTweetIdDir, e.1);
      GeoPathsEqual(d, x, GeoTweetTextDir, e.1);
    }
  }

  /** A name of a shaped table is never among its code files (names and codes differ in length). */
  lemma {:induction false} NameNotInCodePaths(t: Table, d: string, name: string)
    requires IsGeoDir(d) && Shaped(t) && |name| != 2
    ensures Path(d, name) !in CodePaths(t)
  {
    NotInCodePaths(t, d, name);
  }

  /** One iteration of `aggregate` on an entry whose name and code differ in length: both of its code
      files receive their state file, and no other file changes. */
  lemma AggregateEntryEffect(before: map<string, string>, e: (string, string))
    requires |e.0| != |e.1|
    ensures var after := AggregateEntry(before, e);
            MergedInto(before, after, GeoTweetIdDir, e) && MergedInto(before, after, GeoTweetTextDir, e) &&
            forall p :: p != Path(GeoTweetIdDir, e.1) && p != Path(GeoTweetTextDir, e.1) ==> SameFile(before, after, p)
  {
    var mid := AggregateStateSpec(before, GeoTweetIdDir, e.0, e.1);
    AggregateStateEffect(before, GeoTweetIdDir, e.0, e.1);
    AggregateStateEffect(mid, GeoTweetTextDir, e.0, e.1);
    GeoPathsEqual(GeoTweetIdDir, e.1, GeoTweetTextDir, e.1);
    GeoPathsEqual(GeoTweetTextDir, e.0, GeoTweetIdDir, e.1);
    GeoPathsEqual(GeoTweetIdDir, e.0, GeoTweetTextDir, e.1);
  }

  /** What `aggregate` over `t` has done to `before` once it reached `after`: every file that is not a
      code file of `t` is as it was, and every entry's code files received their state files. */
  ghost predicate AggregatedAs(before: map<string, string>, after: map<string, string>, t: Table) {
    (forall p :: p !in CodePaths(t) ==> SameFile(before, after, p)) &&
    (forall k :: 0 <= k < |t| ==>
       MergedInto(before, after, GeoTweetIdDir, t[k]) && MergedInto(before, after, GeoTweetTextDir, t[k]))
  }

  /** The entries processed earlier keep what they received when a later entry with another code runs. */
  lemma {:induction false} EarlierEntriesKept(files: map<string, string>, mid: map<string, string>,
                                              after: map<string, string>, t: Table, e: (string, string))
    requires forall k :: 0 <= k < |t| ==>
               MergedInto(files, mid, GeoTweetIdDir, t[k]) && MergedInto(files, mid, GeoTweetTextDir, t[k])
    requires forall k :: 0 <= k < |t| ==> t[k].1 != e.1
    requires forall p :: p != Path(GeoTweetIdDir, e.1) && p != Path(GeoTweetTextDir, e.1) ==> SameFile(mid, after, p)
    ensures forall k :: 0 <= k < |t| ==>
              MergedInto(files, after, GeoTweetIdDir, t[k]) && MergedInto(files, after, GeoTweetTextDir, t[k])
  {
    forall k | 0 <= k < |t|
      ensures MergedInto(files, after, GeoTweetIdDir, t[k]) && MergedInto(files, after, GeoTweetTextDir, t[k])
    {
      GeoPathsEqual(GeoTweetIdDir, t[k].1, GeoTweetIdDir, e.1);
      GeoPathsEqual(GeoTweetIdDir, t[k].1, GeoTweetTextDir, e.1);
      GeoPathsEqual(GeoTweetTextDir, t[k].1, GeoTweetIdDir, e.1);
      GeoPathsEqual(GeoTweetTextDir, t[k].1, GeoTweetTextDir, e.1);
      assert SameFile(mid, after, Path(GeoTweetIdDir, t[k].1));
      assert SameFile(mid, after, Path(GeoTweetTextDir, t[k].1));
      assert MergedInto(files, mid, GeoTweetIdDir, t[k]) && MergedInto(files, mid, GeoTweetTextDir, t[k]);
    }
  }

  /**
   * `aggregate` appends, for every entry whose `{state}.txt` exists, that file's content to
   * `{code}.txt` in the same directory (after whatever `{code}.txt` held, or to a new file);
   * an entry whose `{state}.txt` is absent leaves its code file as it was; and every file that
   * is not a code file of the table, state files included, is left exactly as it was.
   */
  lemma {:induction false} AggregateEffect(files: map<string, string>, t: Table)
    requires WellFormed(t)
    ensures AggregatedAs(files, AggregateSpec(files, t), t)
  {
    if t != [] {
      var n := |t| - 1;
      var t', e := t[..n], t[n];
      WellFormedPrefix(t, n);
      AggregateEffect(files, t');
      var r' := AggregateSpec(files, t');
      var r := AggregateEntry(r', e);
      assert r == AggregateSpec(files, t);
      AggregateEntryEffect(r', e);
      var idDst, txDst := Path(GeoTweetIdDir, e.1), Path(GeoTweetTextDir, e.1);
      // The new entry's files were untouched by the earlier entries.
      NameNotInCodePaths(t', GeoTweetIdDir, e.0);
      NameNotInCodePaths(t', GeoTweetTextDir, e.0);
      NotInCodePaths(t', GeoTweetIdDir, e.1);
      NotInCodePaths(t', GeoTweetTextDir, e.1);
      assert MergedInto(files, r, GeoTweetIdDir, e) && MergedInto(files, r, GeoTweetTextDir, e);
      // The earlier entries' code files are not touched by the new entry.
      EarlierEntriesKept(files, r', r, t', e);
      forall p | p !in CodePaths(t)
        ensures SameFile(files, r, p)
      {
        assert p !in CodePaths(t') && p != idDst && p != txDst;
      }
      assert forall k :: 0 <= k < n ==> t[k] == t'[k];
    }
  }

  /**
   * Running `aggregate` twice appends each existing state file twice: there is no
   * de-duplication. The state files themselves are the same after both runs.
   */
  lemma AggregateTwice(files: map<string, string>, t: Table, k: nat, d: string)
    requires WellFormed(t) && k < |t| && IsGeoDir(d)
    requires Path(d, t[k].0) in files
    ensures var twice := AggregateSpec(AggregateSpec(files, t), t);
            var src, dst := Path(d, t[k].0), Path(d, t[k].1);
            src in twice && twice[src] == files[src] &&
            dst in twice && twice[dst] == Content(files, dst) + files[src] + files[src]
  {
    var once := AggregateSpec(files, t);
    var src, dst := Path(d, t[k].0), Path(d, t[k].1);
    AggregateEffect(files, t);
    AggregateEffect(once, t);
    NameNotInCodePaths(t, d, t[k].0);
    assert MergedInto(files, once, d, t[k]);
    assert MergedInto(once, AggregateSpec(once, t), d, t[k]);
  }

  /** `delete_state_files` removes exactly the name files of the table, in both directories. */
  lemma {:induction false} DeleteEffect(files: map<string, string>, t: Table)
    ensures DeleteSpec(files, t) == files - NamePaths(t)
  {
    if t != [] {
      DeleteEffect(files, t[..|t| - 1]);
    }
  }

  /** Deleting the state files twice is deleting them once. */
  lemma DeleteIdempotent(files: map<string, string>, t: Table)
    ensures DeleteSpec(DeleteSpec(files, t), t) == DeleteSpec(files, t)
  {
    DeleteEffect(files, t);
    DeleteEffect(DeleteSpec(files, t), t);
  }

  /** `delete_state_files` never touches a code file of a shaped table. */
  lemma DeleteKeepsCodeFiles(files: map<string, string>, t: Table, p: string)
    requires Shaped(t) && p in CodePaths(t)
    ensures SameFile(files, DeleteSpec(files, t), p)
  {
    DeleteEffect(files, t);
    NameAndCodePathsDisjoint(t, t);
  }

  /** The name files and the code files of shaped tables never overlap. */
  lemma {:induction false} NameAndCodePathsDisjoint(names: Table, codes: Table)
    requires Shaped(names) && Shaped(codes)
    ensures NamePaths(names) !! CodePaths(codes)
  {
    if names != [] {
      var n := |names| - 1;
      assert Shaped(names[..n]) by {
        assert forall i :: 0 <= i < n ==> names[..n][i] == names[i];
      }
      NameAndCodePathsDisjoint(names[..n], codes);
      NameNotInCodePaths(codes, GeoTweetIdDir, names[n].0);
      NameNotInCodePaths(codes, GeoTweetTextDir, names[n].0);
    }
  }

  /** With no name file present, `aggregate` leaves the whole store unchanged. */
  lemma {:induction false} AggregateWithoutStateFiles(files: map<string, string>, t: Table)
    requires forall p :: p in NamePaths(t) ==> p !in files
    ensures AggregateSpec(files, t) == files
  {
    if t != [] {
      AggregateWithoutStateFiles(files, t[..|t| - 1]);
    }
  }

  /** `delete_state_files` followed by `aggregate` leaves the code files as the deletion left them. */
  lemma AggregateAfterDelete(files: map<string, string>, t: Table)
    ensures AggregateSpec(DeleteSpec(files, t), t) == DeleteSpec(files, t)
  {
    DeleteEffect(files, t);
    AggregateWithoutStateFiles(DeleteSpec(files, t), t);
  }
}
