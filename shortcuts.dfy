/**
 * Start-menu shortcut discovery of `src/main.rs`: the guarded link resolver
 * and the recursive directory walk that collects the targets of `.lnk`
 * files. The filesystem is a tree of entries; the shortcut parser (the
 * `lnk` crate's `ShellLink::open` followed by `link_info().local_base_path()`)
 * is an arbitrary function from a path to an optional target.
 */
module Shortcuts {
  import opened Wrappers
  import opened Strings

  /** One entry of a directory listing. */
  datatype Node =
    | Unlisted                              // an entry `read_dir` yields as `Err`: skipped
    | File(path: string)                    // any entry that is not a directory
    | Dir(path: string, entries: seq<Node>) // a directory and its listing, in `read_dir` order

  /** The shortcuts the link parser is known to mishandle live under this name. */
  const BrokenVendor: string := "Windows PowerShell"

  /** `resolve_lnk_target`: refuse the broken vendor's shortcuts, otherwise ask the parser. */
  function ResolveLnkTarget(path: string, parse: string -> Option<string>): (r: Option<string>)
    ensures Contains(path, BrokenVendor) ==> r == None
    ensures !Contains(path, BrokenVendor) ==> r == parse(path)
  {
    if Contains(path, BrokenVendor) then None else parse(path)
  }

  /** A guarded path resolves the same way whatever the parser would have said. */
  lemma GuardIgnoresParser(path: string, parse: string -> Option<string>, other: string -> Option<string>)
    requires Contains(path, BrokenVendor)
    ensures ResolveLnkTarget(path, parse) == ResolveLnkTarget(path, other) == None
  {
  }

  // ---------------------------------------------------------------------
  // File names and extensions, after `std::path::Path` on Windows
  // ---------------------------------------------------------------------

  /** The index of the last character of `s` that belongs to `cs`. */
  function LastIndexIn(s: string, cs: set<char>): (r: Option<nat>)
    ensures r.Some? ==> r.value < |s| && s[r.value] in cs && forall j :: r.value < j < |s| ==> s[j] !in cs
    ensures r.None? ==> forall j :: 0 <= j < |s| ==> s[j] !in cs
  {
    if s == [] then None
    else if s[|s| - 1] in cs then Some(|s| - 1)
    else LastIndexIn(s[..|s| - 1], cs)
  }

  /** The last component of a path: what follows the last `\` or `/`. */
  function FileName(path: string): string {
    match LastIndexIn(path, {'\\', '/'})
    case None => path
    case Some(i) => path[i + 1..]
  }

  /**
   * `Path::extension`: the part of the file name after its last dot, when
   * that dot is not the first character; `..` has none.
   */
  function Extension(path: string): Option<string> {
    NameExtension(FileName(path))
  }

  /** The extension of a file name. */
  function NameExtension(name: string): Option<string> {
    if name == ".." then None
    else
      match LastIndexIn(name, {'.'})
      case None => None
      case Some(i) => if i == 0 then None else Some(name[i + 1..])
  }

  /** The walker's `extension == "lnk"` test. */
  predicate IsLnk(path: string) {
    Extension(path) == Some("lnk")
  }

  /** A name ending in `.lnk` with something before the dot has extension `lnk`. */
  lemma LnkSuffixIsExtension(name: string)
    requires |name| > 4 && EndsWith(name, ".lnk")
    ensures NameExtension(name) == Some("lnk")
  {
    var d := |name| - 4;
    assert name[d..] == ".lnk";
    assert name[d] == '.';
    assert name != "..";
    forall j | d < j < |name|
      ensures name[j] != '.'
    {
      assert name[j] == name[d..][j - d];
    }
    var i := LastIndexIn(name, {'.'});
    assert i.Some?;
    assert i.value == d;
    assert name[d + 1..] == name[d..][1..];
  }

  /** A name with extension `lnk` ends in `.lnk` and has something before the dot. */
  lemma LnkExtensionIsSuffix(name: string)
    requires NameExtension(name) == Some("lnk")
    ensures |name| > 4 && EndsWith(name, ".lnk")
  {
    var i := LastIndexIn(name, {'.'}).value;
    assert i > 0 && name[i + 1..] == "lnk";
    assert name[i] == '.';
    assert name[i..] == [name[i]] + name[i + 1..];
  }

  /**
   * A path has extension exactly `lnk` when its file name ends in `.lnk`
   * and has something before that dot (so `.lnk` alone does not count).
   */
  lemma LnkExtension(path: string)
    ensures IsLnk(path) <==> |FileName(path)| > 4 && EndsWith(FileName(path), ".lnk")
  {
    if IsLnk(path) {
      LnkExtensionIsSuffix(FileName(path));
    }
    if |FileName(path)| > 4 && EndsWith(FileName(path), ".lnk") {
      LnkSuffixIsExtension(FileName(path));
    }
  }

  // ---------------------------------------------------------------------
  // The walk
  // ---------------------------------------------------------------------

  /** What one non-directory entry contributes: its resolved target, when it is a shortcut. */
  function FileTargets(path: string, parse: string -> Option<string>): seq<string> {
    if IsLnk(path) then ResolveLnkTarget(path, parse).ToSeq() else []
  }

  /** The targets collected from an entry, in walk order. */
  function NodeTargets(n: Node, parse: string -> Option<string>): seq<string>
    decreases n, 1, 0
  {
    match n
    case Unlisted => []
    case File(p) => FileTargets(p, parse)
    case Dir(_, entries) => EntryTargets(n, |entries|, parse)
  }

  /** The targets collected from the first `k` entries of directory `d`, in walk order. */
  function EntryTargets(d: Node, k: nat, parse: string -> Option<string>): seq<string>
    requires d.Dir? && k <= |d.entries|
    decreases d, 0, k
  {
    if k == 0 then [] else EntryTargets(d, k - 1, parse) + NodeTargets(d.entries[k - 1], parse)
  }

  /** The vector `traverse_dir` appends to, shared across the recursion. */
  class PathSink {
    var paths: seq<string>

    constructor ()
      ensures paths == []
    {
      paths := [];
    }
  }

  /**
   * `traverse_dir`: recurse into subdirectories and append the resolved target
   * of every `.lnk` file; the vector only grows.
   */
  method TraverseDir(dir: Node, sink: PathSink, parse: string -> Option<string>)
    requires dir.Dir?
    modifies sink
    ensures sink.paths == old(sink.paths) + NodeTargets(dir, parse)
    decreases dir
  {
    var entries := dir.entries;
    for i := 0 to |entries|
      invariant sink.paths == old(sink.paths) + EntryTargets(dir, i, parse)
    {
      ghost var before := sink.paths;
      match entries[i]
      case Unlisted =>
      case Dir(_, _) =>
        TraverseDir(entries[i], sink, parse);
      case File(filePath) =>
        if IsLnk(filePath) {
          var target := ResolveLnkTarget(filePath, parse);
          if target.Some? {
            sink.paths := sink.paths + [target.value];
          }
        }
      assert sink.paths == before + NodeTargets(entries[i], parse);
    }
  }

  /** `get_apps_path_by_startmenu` once the start-menu directory is known: walk it into a fresh vector. */
  method StartMenuTargets(startMenu: Node, parse: string -> Option<string>) returns (appPaths: seq<string>)
    requires startMenu.Dir?
    ensures appPaths == NodeTargets(startMenu, parse)
  {
    var sink := new PathSink();
    TraverseDir(startMenu, sink, parse);
    appPaths := sink.paths;
  }

  // ---------------------------------------------------------------------
  // What the walk collects
  // ---------------------------------------------------------------------

  /** `p` is the path of a non-directory entry somewhere in the tree. */
  predicate HasFile(n: Node, p: string) {
    match n
    case Unlisted => false
    case File(q) => q == p
    case Dir(_, entries) => exists i :: 0 <= i < |entries| && HasFile(entries[i], p)
  }

  /** A shortcut in the tree that the guarded resolver maps to `x`. */
  ghost predicate ResolvesTo(n: Node, p: string, x: string, parse: string -> Option<string>) {
    HasFile(n, p) && x in FileTargets(p, parse)
  }

  /** Some shortcut in the tree resolves to `x`. */
  ghost predicate Yields(n: Node, x: string, parse: string -> Option<string>) {
    exists p :: ResolvesTo(n, p, x, parse)
  }

  /**
   * The walk collects exactly the resolved targets of the `.lnk` files in
   * the tree: nothing from other files, and nothing from a shortcut the
   * resolver turns down.
   */
  lemma {:induction false} NodeTargetsMember(n: Node, x: string, parse: string -> Option<string>)
    ensures x in NodeTargets(n, parse) <==> Yields(n, x, parse)
    decreases n, 1, 0
  {
    match n
    case Unlisted =>
    case File(q) =>
      if x in NodeTargets(n, parse) {
        assert ResolvesTo(n, q, x, parse);
      }
    case Dir(_, entries) =>
      EntryTargetsMember(n, |entries|, x, parse);
      DirYields(n, x, parse);
  }

  /** A directory yields what one of its entries yields. */
  lemma DirYields(n: Node, x: string, parse: string -> Option<string>)
    requires n.Dir?
    ensures Yields(n, x, parse) <==> exists i :: 0 <= i < |n.entries| && Yields(n.entries[i], x, parse)
  {
    if exists i :: 0 <= i < |n.entries| && Yields(n.entries[i], x, parse) {
      var i :| 0 <= i < |n.entries| && Yields(n.entries[i], x, parse);
      EntryYields(n, i, x, parse);
    }
    if Yields(n, x, parse) {
      DirYieldsFromEntry(n, x, parse);
    }
  }

  /** What a directory yields, one of its entries yields. */
  lemma DirYieldsFromEntry(n: Node, x: string, parse: string -> Option<string>)
    requires n.Dir? && Yields(n, x, parse)
    ensures exists i :: 0 <= i < |n.entries| && Yields(n.entries[i], x, parse)
  {
    var p :| ResolvesTo(n, p, x, parse);
    var i :| 0 <= i < |n.entries| && HasFile(n.entries[i], p);
    assert ResolvesTo(n.entries[i], p, x, parse);
  }

  /** What an entry yields, its directory yields. */
  lemma EntryYields(n: Node, i: nat, x: string, parse: string -> Option<string>)
    requires n.Dir? && i < |n.entries| && Yields(n.entries[i], x, parse)
    ensures Yields(n, x, parse)
  {
    var p :| ResolvesTo(n.entries[i], p, x, parse);
    assert HasFile(n, p);
    assert ResolvesTo(n, p, x, parse);
  }

  /** The same, for the first `k` entries of a directory. */
  lemma {:induction false} EntryTargetsMember(d: Node, k: nat, x: string, parse: string -> Option<string>)
    requires d.Dir? && k <= |d.entries|
    ensures x in EntryTargets(d, k, parse) <==> exists i :: 0 <= i < k && Yields(d.entries[i], x, parse)
    decreases d, 0, k
  {
    if k > 0 {
      EntryTargetsMember(d, k - 1, x, parse);
      NodeTargetsMember(d.entries[k - 1], x, parse);
      assert EntryTargets(d, k, parse) == EntryTargets(d, k - 1, parse) + NodeTargets(d.entries[k - 1], parse);
      if x in EntryTargets(d, k, parse) {
        if x in EntryTargets(d, k - 1, parse) {
          var i :| 0 <= i < k - 1 && Yields(d.entries[i], x, parse);
          assert 0 <= i < k && Yields(d.entries[i], x, parse);
        } else {
          assert Yields(d.entries[k - 1], x, parse);
        }
      }
      if exists i :: 0 <= i < k && Yields(d.entries[i], x, parse) {
        var i :| 0 <= i < k && Yields(d.entries[i], x, parse);
        if i < k - 1 {
          assert x in EntryTargets(d, k - 1, parse);
        } else {
          assert x in NodeTargets(d.entries[k - 1], parse);
        }
      }
    }
  }

  /**
   * Every collected target comes from a `.lnk` file whose path avoids the
   * broken vendor's name, and is what the parser returned for that file.
   */
  lemma CollectedTargetsSkipBrokenVendor(n: Node, x: string, parse: string -> Option<string>)
    requires x in NodeTargets(n, parse)
    ensures exists p :: HasFile(n, p) && IsLnk(p) && !Contains(p, BrokenVendor) && parse(p) == Some(x)
  {
    NodeTargetsMember(n, x, parse);
    var p :| ResolvesTo(n, p, x, parse);
    assert IsLnk(p) && ResolveLnkTarget(p, parse) == Some(x);
    assert HasFile(n, p) && IsLnk(p) && !Contains(p, BrokenVendor) && parse(p) == Some(x);
  }
}
