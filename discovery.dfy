/**
 * Registry-based application discovery of `src/main.rs`: the App Paths
 * lookup, the per-subtree record builder that matches each install location
 * against the App Paths executables, the `AppList` iterator, and the scan of
 * the four uninstall subtrees.
 */
module Discovery {
  import opened Wrappers
  import opened Strings
  import opened Registry

  /** One discovered application. */
  datatype App = App(name: string, root: string, bin: string, icon: string)

  /** What every record the builder emits satisfies. */
  predicate WellFormed(a: App) {
    a.name != "" && a.root != "" && (a.icon == "" || EndsWith(a.icon, ".ico"))
  }

  // ---------------------------------------------------------------------
  // App Paths lookup
  // ---------------------------------------------------------------------

  const AppPathsNative: string := NativeCurrentVersion + "App Paths"
  const AppPathsWow: string := WowCurrentVersion + "App Paths"

  /** The sibling subtree of an uninstall subtree: every `Uninstall` becomes `App Paths`. */
  function AppPathsSubtree(path: string): string {
    ReplaceAll(path, "Uninstall", "App Paths")
  }

  /** For the native uninstall subtree the substitution lands on the native App Paths subtree. */
  lemma AppPathsOfNativeRoot()
    ensures AppPathsSubtree(UninstallNative) == AppPathsNative
  {
    assert 'U' !in Software && 'U' !in WindowsCurrentVersion;
    UninstallToAppPaths(NativeCurrentVersion);
  }

  /** For the 32-bit uninstall subtree the substitution lands on the 32-bit App Paths subtree. */
  lemma AppPathsOfWowRoot()
    ensures AppPathsSubtree(UninstallWow) == AppPathsWow
  {
    assert 'U' !in Software && 'U' !in Wow6432Node && 'U' !in WindowsCurrentVersion;
    UninstallToAppPaths(WowCurrentVersion);
  }

  /** A trailing `Uninstall` after a prefix without a capital U becomes `App Paths`. */
  lemma UninstallToAppPaths(prefix: string)
    requires 'U' !in prefix
    ensures AppPathsSubtree(prefix + "Uninstall") == prefix + "App Paths"
  {
    ReplaceAllSkips(prefix, "Uninstall", "Uninstall", "App Paths");
    ReplaceAllAtFront("", "Uninstall", "App Paths");
    assert "Uninstall" + "" == "Uninstall";
  }

  /** The default values of the subkeys that can be opened and have one, in enumeration order. */
  function DefaultValuesOf(keys: seq<SubKey>): (r: seq<string>)
    ensures |r| <= |keys|
  {
    if keys == [] then [] else DefaultValueOf(keys[0]) + DefaultValuesOf(keys[1..])
  }

  /** The default value of one subkey, when it can be opened and has one. */
  function DefaultValueOf(key: SubKey): seq<string> {
    match key
    case Unreadable => []
    case Readable(values) => GetValue(values, "").ToSeq()
  }

  /** The executable candidates `get_apps_path` returns for an uninstall subtree. */
  function AppPathsOf(hive: Hive, path: string): seq<string> {
    var sibling := AppPathsSubtree(path);
    if sibling in hive then DefaultValuesOf(hive[sibling]) else []
  }

  /** `AppList::get_apps_path`: collect the default value of every App Paths subkey. */
  method GetAppsPath(hive: Hive, path: string) returns (appPaths: seq<string>)
    ensures appPaths == AppPathsOf(hive, path)
  {
    appPaths := [];
    var sibling := AppPathsSubtree(path);
    if sibling !in hive {
      return;
    }
    var keys := hive[sibling];
    var i := 0;
    while i < |keys|
      invariant 0 <= i <= |keys|
      invariant appPaths + DefaultValuesOf(keys[i..]) == DefaultValuesOf(keys)
    {
      assert keys[i..][0] == keys[i] && keys[i..][1..] == keys[i + 1..];
      assert DefaultValuesOf(keys[i..]) == DefaultValueOf(keys[i]) + DefaultValuesOf(keys[i + 1..]);
      AppendAssoc(appPaths, DefaultValueOf(keys[i]), DefaultValuesOf(keys[i + 1..]));
      if keys[i].Readable? && "" in keys[i].values {
        appPaths := appPaths + [keys[i].values[""]];
      }
      i := i + 1;
    }
    assert keys[i..] == [];
  }

  /** A string is collected exactly when some readable subkey has it as its default value. */
  lemma {:induction false} DefaultValuesMember(keys: seq<SubKey>, v: string)
    ensures v in DefaultValuesOf(keys) <==>
            exists i :: 0 <= i < |keys| && keys[i].Readable? && GetValue(keys[i].values, "") == Some(v)
  {
    if keys != [] {
      DefaultValuesMember(keys[1..], v);
      if exists i :: 0 <= i < |keys[1..]| && keys[1..][i].Readable? && GetValue(keys[1..][i].values, "") == Some(v) {
        var i :| 0 <= i < |keys[1..]| && keys[1..][i].Readable? && GetValue(keys[1..][i].values, "") == Some(v);
        assert keys[i + 1] == keys[1..][i];
      }
      if exists i :: 0 <= i < |keys| && keys[i].Readable? && GetValue(keys[i].values, "") == Some(v) {
        var i :| 0 <= i < |keys| && keys[i].Readable? && GetValue(keys[i].values, "") == Some(v);
        if i > 0 {
          assert keys[1..][i - 1] == keys[i];
        }
      }
    }
  }

  /** Collection follows enumeration order: the values of a split list are the values of its parts, in order. */
  lemma {:induction false} DefaultValuesAppend(a: seq<SubKey>, b: seq<SubKey>)
    ensures DefaultValuesOf(a + b) == DefaultValuesOf(a) + DefaultValuesOf(b)
  {
    if a == [] {
      assert a + b == b;
    } else {
      assert (a + b)[1..] == a[1..] + b;
      DefaultValuesAppend(a[1..], b);
    }
  }

  // ---------------------------------------------------------------------
  // Record building
  // ---------------------------------------------------------------------

  /** The three values read from an uninstall subkey, each possibly absent. */
  datatype UninstallEntry = UninstallEntry(displayName: Option<string>, installLocation: Option<string>, displayIcon: Option<string>)

  /** Read DisplayName, InstallLocation and DisplayIcon from a subkey. */
  function EntryOf(values: Values): UninstallEntry {
    UninstallEntry(GetValue(values, "DisplayName"), GetValue(values, "InstallLocation"), GetValue(values, "DisplayIcon"))
  }

  /** The icon rule: keep the raw DisplayIcon only when it names a `.ico` file. */
  function IconOf(raw: string): (icon: string)
    ensures icon == "" || EndsWith(icon, ".ico")
    ensures EndsWith(raw, ".ico") ==> icon == raw
    ensures !EndsWith(raw, ".ico") ==> icon == ""
  {
    if EndsWith(raw, ".ico") then raw else ""
  }

  /** The index of the first candidate that contains `root`, if any. */
  function FirstContaining(candidates: seq<string>, root: string): (r: Option<nat>)
    ensures r.Some? ==> r.value < |candidates| && Contains(candidates[r.value], root)
    ensures r.Some? ==> forall j :: 0 <= j < r.value ==> !Contains(candidates[j], root)
    ensures r.None? <==> forall j :: 0 <= j < |candidates| ==> !Contains(candidates[j], root)
  {
    if candidates == [] then None
    else if Contains(candidates[0], root) then Some(0)
    else
      match FirstContaining(candidates[1..], root)
      case None => None
      case Some(i) => Some(i + 1)
  }

  /** The executable bound to an install location: the first candidate containing it, or `""`. */
  function BinFor(candidates: seq<string>, root: string): string {
    match FirstContaining(candidates, root)
    case None => ""
    case Some(i) => candidates[i]
  }

  /**
   * First-match semantics: for a non-empty root, `bin` is empty exactly when
   * no candidate contains the root; otherwise it is a candidate that contains
   * the root and no earlier candidate does.
   */
  lemma BinForIsFirstMatch(candidates: seq<string>, root: string)
    requires root != ""
    ensures BinFor(candidates, root) == "" <==> forall j :: 0 <= j < |candidates| ==> !Contains(candidates[j], root)
    ensures BinFor(candidates, root) != "" ==>
              exists i :: 0 <= i < |candidates| && candidates[i] == BinFor(candidates, root) &&
                          Contains(candidates[i], root) &&
                          forall j :: 0 <= j < i ==> !Contains(candidates[j], root)
  {
    match FirstContaining(candidates, root)
    case None =>
    case Some(i) =>
      EmptyContainsOnlyEmpty(root);
  }

  /** The inner loop of `AppList::new`: scan the candidates and stop at the first one containing `root`. */
  method FindBin(candidates: seq<string>, root: string) returns (bin: string)
    ensures bin == BinFor(candidates, root)
  {
    bin := "";
    for i := 0 to |candidates|
      invariant bin == ""
      invariant forall j :: 0 <= j < i ==> !Contains(candidates[j], root)
    {
      if Contains(candidates[i], root) {
        bin := candidates[i];
        break;
      }
    }
  }

  /** The record for one subkey, or `None` when its name or install location is missing or empty. */
  function RecordOf(e: UninstallEntry, candidates: seq<string>): Option<App> {
    var name := e.displayName.GetOr("");
    var location := e.installLocation.GetOr("");
    var icon := e.displayIcon.GetOr("");
    if name == "" || location == "" then None
    else Some(App(name, location, BinFor(candidates, location), IconOf(icon)))
  }

  /**
   * A subkey yields a record exactly when both its name and its install
   * location are present and non-empty (a missing value counts as empty);
   * the record copies them, binds the first candidate containing the
   * location, and keeps the icon only when it names a `.ico` file.
   */
  lemma RecordOfFields(e: UninstallEntry, candidates: seq<string>)
    ensures RecordOf(e, candidates).Some? <==> e.displayName.GetOr("") != "" && e.installLocation.GetOr("") != ""
    ensures RecordOf(e, candidates).Some? ==>
              var a := RecordOf(e, candidates).value;
              WellFormed(a) && a.name == e.displayName.value && a.root == e.installLocation.value &&
              a.bin == BinFor(candidates, a.root) &&
              a.icon == (if EndsWith(e.displayIcon.GetOr(""), ".ico") then e.displayIcon.value else "")
  {
  }

  /** Every subkey can be opened. */
  predicate AllReadable(keys: seq<SubKey>) {
    forall i :: 0 <= i < |keys| ==> keys[i].Readable?
  }

  /** The records of the readable subkeys, in enumeration order. */
  function RecordsOf(keys: seq<SubKey>, candidates: seq<string>): (r: seq<App>)
    ensures |r| <= |keys|
  {
    if keys == [] then [] else RecordHere(keys[0], candidates) + RecordsOf(keys[1..], candidates)
  }

  /** The record one subkey contributes, if any. */
  function RecordHere(key: SubKey, candidates: seq<string>): seq<App> {
    match key
    case Unreadable => []
    case Readable(values) => RecordOf(EntryOf(values), candidates).ToSeq()
  }

  /** What `AppList::new(hive, path)` produces. */
  function AppListOf(hive: Hive, path: string): (r: Run<seq<App>>)
    ensures r.Panic? <==> path !in hive || !AllReadable(hive[path])
    ensures path !in hive ==> r == Panic(KeyNotFound(path))
  {
    if path !in hive then Panic(KeyNotFound(path))
    else RecordsRun(hive[path], AppPathsOf(hive, path))
  }

  /** The subkey loop's outcome: a fault if some subkey cannot be opened, the records otherwise. */
  function RecordsRun(keys: seq<SubKey>, candidates: seq<string>): Run<seq<App>> {
    if AllReadable(keys) then Done(RecordsOf(keys, candidates)) else Panic(SubkeyUnreadable)
  }

  /**
   * The subkey loop of `AppList::new`: open every subkey, read its three
   * values, and turn every subkey with a name and an install location into a
   * record bound to the first candidate that contains the location.
   */
  method BuildRecords(keys: seq<SubKey>, candidates: seq<string>) returns (r: Run<seq<App>>)
    ensures r == RecordsRun(keys, candidates)
  {
    var installedApps: seq<App> := [];
    var i := 0;
    assert keys[i..] == keys;
    while i < |keys|
      invariant 0 <= i <= |keys|
      invariant AllReadable(keys[..i])
      invariant installedApps + RecordsOf(keys[i..], candidates) == RecordsOf(keys, candidates)
    {
      assert keys[i..][0] == keys[i] && keys[i..][1..] == keys[i + 1..];
      match keys[i]
      case Unreadable =>
        assert !AllReadable(keys);
        assert RecordsRun(keys, candidates) == Panic(SubkeyUnreadable);
        return Panic(SubkeyUnreadable);
      case Readable(values) =>
        assert keys[..i + 1] == keys[..i] + [keys[i]];
        ghost var before, here, rest := installedApps, RecordHere(keys[i], candidates), RecordsOf(keys[i + 1..], candidates);
        assert RecordsOf(keys[i..], candidates) == here + rest;
        AppendAssoc(before, here, rest);
        var name := GetValue(values, "DisplayName").GetOr("");
        var installLocation := GetValue(values, "InstallLocation").GetOr("");
        var icon := GetValue(values, "DisplayIcon").GetOr("");
        if name == "" || installLocation == "" {
          assert here == [];   // skipped, as by `continue`
        } else {
          var bin := FindBin(candidates, installLocation);
          var app := App(name, installLocation, bin, IconOf(icon));
          assert here == [app];
          installedApps := installedApps + [app];
        }
        assert installedApps == before + here;
        assert installedApps + rest == RecordsOf(keys, candidates);
        i := i + 1;
    }
    assert keys[i..] == [];
    assert RecordsOf(keys[i..], candidates) == [];
    assert installedApps == RecordsOf(keys, candidates);
    assert keys[..i] == keys;
    assert AllReadable(keys);
    r := Done(installedApps);
  }

  /** `AppList::new`: open the subtree, fetch the App Paths candidates, and build the records. */
  method NewAppList(hive: Hive, path: string) returns (r: Run<seq<App>>)
    ensures r == AppListOf(hive, path)
  {
    if path !in hive {
      return Panic(KeyNotFound(path));
    }
    var appPaths := GetAppsPath(hive, path);
    r := BuildRecords(hive[path], appPaths);
  }

  /** A record is emitted exactly when some subkey yields it. */
  lemma {:induction false} RecordsOfMember(keys: seq<SubKey>, candidates: seq<string>, a: App)
    ensures a in RecordsOf(keys, candidates) <==>
            exists i :: 0 <= i < |keys| && keys[i].Readable? && RecordOf(EntryOf(keys[i].values), candidates) == Some(a)
  {
    if keys != [] {
      RecordsOfMember(keys[1..], candidates, a);
      if exists i :: 0 <= i < |keys[1..]| && keys[1..][i].Readable? && RecordOf(EntryOf(keys[1..][i].values), candidates) == Some(a) {
        var i :| 0 <= i < |keys[1..]| && keys[1..][i].Readable? && RecordOf(EntryOf(keys[1..][i].values), candidates) == Some(a);
        assert keys[i + 1] == keys[1..][i];
      }
      if exists i :: 0 <= i < |keys| && keys[i].Readable? && RecordOf(EntryOf(keys[i].values), candidates) == Some(a) {
        var i :| 0 <= i < |keys| && keys[i].Readable? && RecordOf(EntryOf(keys[i].values), candidates) == Some(a);
        if i > 0 {
          assert keys[1..][i - 1] == keys[i];
        }
      }
    }
  }

  /** Records follow subkey enumeration order: the records of a split list are those of its parts, in order. */
  lemma {:induction false} RecordsOfAppend(a: seq<SubKey>, b: seq<SubKey>, candidates: seq<string>)
    ensures RecordsOf(a + b, candidates) == RecordsOf(a, candidates) + RecordsOf(b, candidates)
  {
    if a == [] {
      assert a + b == b;
    } else {
      assert (a + b)[1..] == a[1..] + b;
      RecordsOfAppend(a[1..], b, candidates);
    }
  }

  /**
   * Every record of a completed scan is well formed, carries the values of
   * the subkey it came from, and is bound to the first App Paths executable
   * that contains its install location.
   */
  lemma AppListRecords(hive: Hive, path: string, a: App)
    requires AppListOf(hive, path).Done? && a in AppListOf(hive, path).value
    ensures WellFormed(a)
    ensures a.bin == BinFor(AppPathsOf(hive, path), a.root)
    ensures exists i :: 0 <= i < |hive[path]| && hive[path][i].Readable? &&
                        GetValue(hive[path][i].values, "DisplayName") == Some(a.name) &&
                        GetValue(hive[path][i].values, "InstallLocation") == Some(a.root)
  {
    RecordsOfMember(hive[path], AppPathsOf(hive, path), a);
    var i :| 0 <= i < |hive[path]| && hive[path][i].Readable? && RecordOf(EntryOf(hive[path][i].values), AppPathsOf(hive, path)) == Some(a);
    RecordOfFields(EntryOf(hive[path][i].values), AppPathsOf(hive, path));
  }

  /** The first-match rule on the two orderings of a pool with one candidate under `C:\Foo`. */
  lemma FirstMatchExample()
    ensures BinFor(["C:\\Foo\\bin\\foo.exe", "C:\\Bar\\foo.exe"], "C:\\Foo") == "C:\\Foo\\bin\\foo.exe"
    ensures BinFor(["C:\\Bar\\foo.exe", "C:\\Foo\\bin\\foo.exe"], "C:\\Foo") == "C:\\Foo\\bin\\foo.exe"
    ensures BinFor([], "C:\\Foo") == ""
  {
    var foo, bar := "C:\\Foo\\bin\\foo.exe", "C:\\Bar\\foo.exe";
    assert StartsWith(foo, "C:\\Foo");
    MissingCharNotContained(bar, "C:\\Foo", 'F');
  }

  // ---------------------------------------------------------------------
  // The iterator
  // ---------------------------------------------------------------------

  /** The order in which repeated `next` calls hand out the records: last one first. */
  function PopOrder(apps: seq<App>): seq<App> {
    if apps == [] then [] else [apps[|apps| - 1]] + PopOrder(apps[..|apps| - 1])
  }

  /** Popping hands the records out in reverse. */
  lemma {:induction false} PopOrderReverses(apps: seq<App>)
    ensures |PopOrder(apps)| == |apps|
    ensures forall k :: 0 <= k < |apps| ==> PopOrder(apps)[k] == apps[|apps| - 1 - k]
  {
    if apps != [] {
      var rest := apps[..|apps| - 1];
      PopOrderReverses(rest);
      forall k | 0 <= k < |apps|
        ensures PopOrder(apps)[k] == apps[|apps| - 1 - k]
      {
        if k > 0 {
          assert PopOrder(apps)[k] == PopOrder(rest)[k - 1];
        }
      }
    }
  }

  /** `AppList`, whose `Iterator::next` pops the last record of its vector. */
  class AppList {
    var installedApps: seq<App>

    constructor (apps: seq<App>)
      ensures installedApps == apps
    {
      installedApps := apps;
    }

    /** `Iterator::next`: `installed_apps.pop()`. */
    method Next() returns (r: Option<App>)
      modifies this
      ensures old(installedApps) == [] ==> r == None && installedApps == []
      ensures old(installedApps) != [] ==>
                r == Some(old(installedApps)[|old(installedApps)| - 1]) &&
                installedApps == old(installedApps)[..|old(installedApps)| - 1]
      ensures r.ToSeq() + PopOrder(installedApps) == PopOrder(old(installedApps))
    {
      if installedApps == [] {
        r := None;
      } else {
        r := Some(installedApps[|installedApps| - 1]);
        installedApps := installedApps[..|installedApps| - 1];
      }
    }
  }

  // ---------------------------------------------------------------------
  // The four uninstall subtrees
  // ---------------------------------------------------------------------

  /** `main`: the system native, system 32-bit, user native and user 32-bit lists, concatenated in that order. */
  function AllAppsOf(hklm: Hive, hkcu: Hive): Run<seq<App>> {
    Then(Then(Then(AppListOf(hklm, UninstallNative), AppListOf(hklm, UninstallWow)),
              AppListOf(hkcu, UninstallNative)),
         AppListOf(hkcu, UninstallWow))
  }

  /** `main`: build the four lists one after the other and extend one vector with each. */
  method DiscoverAll(hklm: Hive, hkcu: Hive) returns (r: Run<seq<App>>)
    ensures r == AllAppsOf(hklm, hkcu)
    ensures r.Done? <==> AppListOf(hklm, UninstallNative).Done? && AppListOf(hklm, UninstallWow).Done? &&
                         AppListOf(hkcu, UninstallNative).Done? && AppListOf(hkcu, UninstallWow).Done?
    ensures r.Done? ==> r.value == AppListOf(hklm, UninstallNative).value + AppListOf(hklm, UninstallWow).value +
                                   AppListOf(hkcu, UninstallNative).value + AppListOf(hkcu, UninstallWow).value
  {
    var systemApps := NewAppList(hklm, UninstallNative);
    if systemApps.Panic? { return Panic(systemApps.fault); }
    var systemApps32 := NewAppList(hklm, UninstallWow);
    if systemApps32.Panic? { return Panic(systemApps32.fault); }
    var userApps := NewAppList(hkcu, UninstallNative);
    if userApps.Panic? { return Panic(userApps.fault); }
    var userApps32 := NewAppList(hkcu, UninstallWow);
    if userApps32.Panic? { return Panic(userApps32.fault); }
    var apps: seq<App> := [];
    assert apps + systemApps.value == systemApps.value;
    apps := apps + systemApps.value;
    apps := apps + systemApps32.value;
    apps := apps + userApps.value;
    apps := apps + userApps32.value;
    r := Done(apps);
  }
}
