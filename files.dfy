/**
 * The directory tree the pipeline reads and appends to, as an abstract file store: a map from
 * path to the file's whole content. `os.path.exists` is key membership, opening with "a+" and
 * writing appends to the content (creating the file when absent), `os.remove` drops the key.
 * `readlines()` followed by `writelines(...)` copies content unchanged, so lines need no
 * separate representation.
 */
module Files {
  import opened Text

  /** `f"{directory}/{name}.txt"`. */
  function Path(directory: string, name: string): (p: string)
    ensures |p| == |directory| + |name| + 5
    ensures p[..|directory|] == directory
  {
    directory + "/" + name + ".txt"
  }

  /** Within one directory, different names give different paths. */
  lemma {:induction false} PathInjective(directory: string, a: string, b: string)
    ensures Path(directory, a) == Path(directory, b) <==> a == b
  {
    if Path(directory, a) == Path(directory, b) {
      var n := |directory| + 1;
      assert |a| == |b|;
      assert Path(directory, a)[n..n + |a|] == a;
      assert Path(directory, b)[n..n + |b|] == b;
    }
  }

  /** What `f.writelines(f"{item}\n" for item in items)` writes: one line per item. */
  function Lines(items: seq<string>): string
  {
    if items == [] then "" else items[0] + "\n" + Lines(items[1..])
  }

  /** `Lines` is the newline-join of the items followed by a final newline. */
  lemma {:induction false} LinesJoin(items: seq<string>)
    ensures Lines(items) == Join(items + [""], "\n")
  {
    if items != [] {
      LinesJoin(items[1..]);
      assert (items + [""])[1..] == items[1..] + [""];
    }
  }

  /**
   * When no item contains a line break, the written text splits back into exactly the items,
   * one per line, in order (the last, empty field is what follows the final newline).
   */
  lemma LinesSplit(items: seq<string>)
    requires forall j :: 0 <= j < |items| ==> '\n' !in items[j]
    ensures Split(Lines(items), '\n') == items + [""]
  {
    LinesJoin(items);
    SplitJoin(items + [""], '\n');
  }

  /** Writing `a` and then `b` as lines is writing `a + b`: the lines keep the items' order. */
  lemma {:induction false} LinesAppend(a: seq<string>, b: seq<string>)
    ensures Lines(a + b) == Lines(a) + Lines(b)
  {
    if a == [] {
      assert a + b == b;
    } else {
      assert (a + b)[0] == a[0] && (a + b)[1..] == a[1..] + b;
      LinesAppend(a[1..], b);
    }
  }

  /** The content of `path`, or "" when the file does not exist (what "a+" starts from). */
  function Content(files: map<string, string>, path: string): string
  {
    if path in files then files[path] else ""
  }

  /** `path` exists in both stores with the same content, or in neither. */
  predicate SameFile(before: map<string, string>, after: map<string, string>, path: string)
  {
    (path in before <==> path in after) && (path in before ==> after[path] == before[path])
  }

  /** Opening `path` with "a+" and writing `text`. */
  function AppendSpec(files: map<string, string>, path: string, text: string): (r: map<string, string>)
    ensures path in r && r[path] == Content(files, path) + text
    ensures forall p :: p != path ==> SameFile(files, r, p)
  {
    files[path := Content(files, path) + text]
  }

  /** The files after the appends `writes`, each a path and a text, in order. */
  function AppendAll(files: map<string, string>, writes: seq<(string, string)>): map<string, string>
  {
    if writes == [] then files
    else
      var last := writes[|writes| - 1];
      AppendSpec(AppendAll(files, writes[..|writes| - 1]), last.0, last.1)
  }

  /** Everything the appends `writes` write to `path`, in order. */
  function WrittenTo(writes: seq<(string, string)>, path: string): string
  {
    if writes == [] then ""
    else
      var last := writes[|writes| - 1];
      WrittenTo(writes[..|writes| - 1], path) + (if last.0 == path then last.1 else "")
  }

  /** Two more appends after `writes`. */
  lemma AppendAllTwoMore(files: map<string, string>, writes: seq<(string, string)>,
                         a: (string, string), b: (string, string))
    ensures AppendAll(files, writes + [a, b]) ==
              AppendSpec(AppendSpec(AppendAll(files, writes), a.0, a.1), b.0, b.1)
  {
    var w := writes + [a, b];
    assert w[..|w| - 1] == writes + [a];
    assert (writes + [a])[..|writes|] == writes;
  }

  /** What two more appends add to a path. */
  lemma WrittenToTwoMore(writes: seq<(string, string)>, a: (string, string), b: (string, string),
                         path: string)
    ensures WrittenTo(writes + [a, b], path) ==
              WrittenTo(writes, path) + (if a.0 == path then a.1 else "") +
              (if b.0 == path then b.1 else "")
  {
    var w := writes + [a, b];
    assert w[..|w| - 1] == writes + [a];
    assert (writes + [a])[..|writes|] == writes;
  }

  /** Two more appends of which only the first can reach `path`. */
  lemma WrittenToFirstOfTwo(writes: seq<(string, string)>, a: (string, string), b: (string, string),
                            path: string)
    requires b.0 != path
    ensures WrittenTo(writes + [a, b], path) == WrittenTo(writes, path) + (if a.0 == path then a.1 else "")
  {
    WrittenToTwoMore(writes, a, b, path);
    var before := WrittenTo(writes, path) + (if a.0 == path then a.1 else "");
    assert before + "" == before;
  }

  /** Two more appends of which only the second can reach `path`. */
  lemma WrittenToSecondOfTwo(writes: seq<(string, string)>, a: (string, string), b: (string, string),
                             path: string)
    requires a.0 != path
    ensures WrittenTo(writes + [a, b], path) == WrittenTo(writes, path) + (if b.0 == path then b.1 else "")
  {
    WrittenToTwoMore(writes, a, b, path);
    var before := WrittenTo(writes, path);
    assert before + "" == before;
  }

  /**
   * After a sequence of appends, a file exists when it existed or was written to, and holds its
   * old content followed by everything written to it, in order.
   */
  lemma {:induction false} AppendAllEffect(files: map<string, string>, writes: seq<(string, string)>,
                                           path: string)
    ensures var r := AppendAll(files, writes);
            (path in r <==> path in files || exists j :: 0 <= j < |writes| && writes[j].0 == path) &&
            Content(r, path) == Content(files, path) + WrittenTo(writes, path)
  {
    if writes != [] {
      var front := writes[..|writes| - 1];
      AppendAllEffect(files, front, path);
      WritesToSplit(writes, path);
    }
  }

  /** Some append targets `path` exactly when the last one does or an earlier one does. */
  lemma WritesToSplit(writes: seq<(string, string)>, path: string)
    requires writes != []
    ensures var front := writes[..|writes| - 1];
            (exists j :: 0 <= j < |writes| && writes[j].0 == path) <==>
            writes[|writes| - 1].0 == path || exists j :: 0 <= j < |front| && front[j].0 == path
  {
    var front := writes[..|writes| - 1];
    if exists j :: 0 <= j < |front| && front[j].0 == path {
      var j :| 0 <= j < |front| && front[j].0 == path;
      assert writes[j].0 == path;
    }
    if exists j :: 0 <= j < |writes| && writes[j].0 == path {
      var j :| 0 <= j < |writes| && writes[j].0 == path;
      if j < |front| {
        assert front[j].0 == path;
      }
    }
  }

  /** Appending `a` then `b` is appending `a + b`. */
  lemma {:induction false} AppendAllConcat(files: map<string, string>, a: seq<(string, string)>,
                                           b: seq<(string, string)>)
    ensures AppendAll(files, a + b) == AppendAll(AppendAll(files, a), b)
  {
    if b != [] {
      assert (a + b)[..|a + b| - 1] == a + b[..|b| - 1];
      AppendAllConcat(files, a, b[..|b| - 1]);
    } else {
      assert a + b == a;
    }
  }

  class FileStore {
    var files: map<string, string>

    constructor (initial: map<string, string>)
      ensures files == initial
    {
      files := initial;
    }

    /** `os.path.exists(path)`. */
    predicate Exists(path: string)
      reads this
    {
      path in files
    }

    /** Appends `text` to `path`, creating it when absent; no other file changes. */
    method Append(path: string, text: string)
      modifies this
      ensures files == AppendSpec(old(files), path, text)
    {
      files := files[path := Content(files, path) + text];
    }

    /** `os.remove(path)` on an existing file; no other file changes. */
    method Remove(path: string)
      requires Exists(path)
      modifies this
      ensures files == old(files) - {path}
    {
      files := files - {path};
    }
  }
}
