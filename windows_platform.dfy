/**
 * The Windows lister of `src/platform/windows.rs`: name, version and
 * publisher of every uninstall entry under the four uninstall subtrees.
 * Unlike the record builder of `src/main.rs`, it unwraps every value it
 * reads, so a subkey without one of them aborts the whole scan.
 */
module WindowsPlatform {
  import opened Wrappers
  import opened Registry

  /** One installed application as the library reports it. */
  datatype App = App(name: string, version: string, publisher: string) {

    /** `App::name`. */
    function Name(): (r: string)
      ensures r == name
    {
      name
    }

    /** `App::version`. */
    function Version(): (r: string)
      ensures r == version
    {
      version
    }

    /** `App::publisher`. */
    function Publisher(): (r: string)
      ensures r == publisher
    {
      publisher
    }
  }

  /** A subkey the scan reads without aborting: it opens and has all three values. */
  predicate Complete(key: SubKey) {
    key.Readable? && "DisplayName" in key.values && "DisplayVersion" in key.values && "Publisher" in key.values
  }

  /**
   * One iteration of the subkey loop: open the subkey and unwrap the three
   * values in the order the code reads them; skip a nameless entry.
   */
  function ReadApp(key: SubKey): (r: Run<Option<App>>)
    ensures r.Done? <==> Complete(key)
    ensures key.Unreadable? ==> r == Panic(SubkeyUnreadable)
    ensures key.Readable? && "DisplayName" !in key.values ==> r == Panic(ValueMissing("DisplayName"))
    ensures Complete(key) ==> (r.value.None? <==> key.values["DisplayName"] == "")
    ensures r.Done? && r.value.Some? ==>
              r.value.value == App(key.values["DisplayName"], key.values["DisplayVersion"], key.values["Publisher"]) &&
              r.value.value.name != ""
  {
    match key
    case Unreadable => Panic(SubkeyUnreadable)
    case Readable(values) =>
      if "DisplayName" !in values then Panic(ValueMissing("DisplayName"))
      else if "DisplayVersion" !in values then Panic(ValueMissing("DisplayVersion"))
      else if "Publisher" !in values then Panic(ValueMissing("Publisher"))
      else if values["DisplayName"] == "" then Done(None)
      else Done(Some(App(values["DisplayName"], values["DisplayVersion"], values["Publisher"])))
  }

  /** The subkey loop over the whole list: the first fault aborts it. */
  function ScanOf(keys: seq<SubKey>): Run<seq<App>> {
    if keys == [] then Done([])
    else
      match ReadApp(keys[0])
      case Panic(f) => Panic(f)
      case Done(o) => Then(Done(o.ToSeq()), ScanOf(keys[1..]))
  }

  /** What `AppList::new(hive, path)` produces. */
  function AppListOf(hive: Hive, path: string): Run<seq<App>> {
    if path !in hive then Panic(KeyNotFound(path)) else ScanOf(hive[path])
  }

  /** `AppList::new`: open the subtree and push every named entry; any missing value aborts. */
  method NewAppList(hive: Hive, path: string) returns (r: Run<seq<App>>)
    ensures r == AppListOf(hive, path)
  {
    if path !in hive {
      return Panic(KeyNotFound(path));
    }
    var keys := hive[path];
    var installedApps: seq<App> := [];
    var i := 0;
    assert keys[i..] == keys;
    assert ScanOf(keys).Done? ==> [] + ScanOf(keys).value == ScanOf(keys).value;
    while i < |keys|
      invariant 0 <= i <= |keys|
      invariant ScanOf(keys) == Then(Done(installedApps), ScanOf(keys[i..]))
    {
      assert keys[i..][0] == keys[i] && keys[i..][1..] == keys[i + 1..];
      match keys[i]
      case Unreadable =>
        return Panic(SubkeyUnreadable);
      case Readable(values) =>
        var name := GetValue(values, "DisplayName");
        if name.None? {
          return Panic(ValueMissing("DisplayName"));
        }
        var version := GetValue(values, "DisplayVersion");
        if version.None? {
          return Panic(ValueMissing("DisplayVersion"));
        }
        var publisher := GetValue(values, "Publisher");
        if publisher.None? {
          return Panic(ValueMissing("Publisher"));
        }
        ghost var here := ReadApp(keys[i]).value.ToSeq();
        ghost var before := installedApps;
        assert ScanOf(keys[i..]) == Then(Done(here), ScanOf(keys[i + 1..]));
        ThenAssoc(Done(before), Done(here), ScanOf(keys[i + 1..]));
        if name.value == "" {
          assert here == [];   // skipped, as by `continue`
          assert before + here == installedApps;
        } else {
          assert here == [App(name.value, version.value, publisher.value)];
          installedApps := installedApps + [App(name.value, version.value, publisher.value)];
          assert before + here == installedApps;
        }
        i := i + 1;
    }
    assert keys[i..] == [];
    assert installedApps + [] == installedApps;
    r := Done(installedApps);
  }

  /** The scan completes exactly when every subkey opens and has all three values. */
  lemma {:induction false} ScanDone(keys: seq<SubKey>)
    ensures ScanOf(keys).Done? <==> forall i :: 0 <= i < |keys| ==> Complete(keys[i])
  {
    if keys != [] {
      ScanDone(keys[1..]);
      assert forall i :: 1 <= i < |keys| ==> keys[i] == keys[1..][i - 1];
    }
  }

  /** The fault reported is that of the first subkey that cannot be read. */
  lemma {:induction false} ScanFaultIsFirst(keys: seq<SubKey>)
    requires ScanOf(keys).Panic?
    ensures exists i :: 0 <= i < |keys| && ReadApp(keys[i]) == Panic(ScanOf(keys).fault) &&
                        forall j :: 0 <= j < i ==> ReadApp(keys[j]).Done?
  {
    if ReadApp(keys[0]).Panic? {
      assert ReadApp(keys[0]) == Panic(ScanOf(keys).fault);
    } else {
      ScanFaultIsFirst(keys[1..]);
      var i :| 0 <= i < |keys[1..]| && ReadApp(keys[1..][i]) == Panic(ScanOf(keys[1..]).fault) &&
               forall j :: 0 <= j < i ==> ReadApp(keys[1..][j]).Done?;
      assert ReadApp(keys[i + 1]) == Panic(ScanOf(keys).fault);
      forall j | 0 <= j < i + 1
        ensures ReadApp(keys[j]).Done?
      {
        if j > 0 {
          assert keys[j] == keys[1..][j - 1];
        }
      }
    }
  }

  /** Entries follow subkey order: scanning a split list is scanning its parts one after the other. */
  lemma {:induction false} ScanAppend(a: seq<SubKey>, b: seq<SubKey>)
    ensures ScanOf(a + b) == Then(ScanOf(a), ScanOf(b))
  {
    if a == [] {
      assert a + b == b;
      assert ScanOf(b).Done? ==> [] + ScanOf(b).value == ScanOf(b).value;
    } else {
      assert (a + b)[0] == a[0] && (a + b)[1..] == a[1..] + b;
      ScanAppend(a[1..], b);
      if ReadApp(a[0]).Done? {
        ThenAssoc(Done(ReadApp(a[0]).value.ToSeq()), ScanOf(a[1..]), ScanOf(b));
      }
    }
  }

  /** An entry is listed exactly when some subkey yields it: a named subkey, its values copied unchanged. */
  lemma {:induction false} ScanMember(keys: seq<SubKey>, a: App)
    requires ScanOf(keys).Done?
    ensures a in ScanOf(keys).value <==> exists i :: 0 <= i < |keys| && ReadApp(keys[i]) == Done(Some(a))
    ensures a in ScanOf(keys).value ==> a.name != ""
  {
    if keys != [] {
      ScanMember(keys[1..], a);
      if exists i :: 0 <= i < |keys[1..]| && ReadApp(keys[1..][i]) == Done(Some(a)) {
        var i :| 0 <= i < |keys[1..]| && ReadApp(keys[1..][i]) == Done(Some(a));
        assert keys[i + 1] == keys[1..][i];
      }
      if exists i :: 0 <= i < |keys| && ReadApp(keys[i]) == Done(Some(a)) {
        var i :| 0 <= i < |keys| && ReadApp(keys[i]) == Done(Some(a));
        if i > 0 {
          assert keys[1..][i - 1] == keys[i];
        }
      }
    }
  }

  /** Through the accessors, a listed entry shows exactly the three values of the subkey it came from. */
  lemma ListedAccessors(keys: seq<SubKey>, a: App)
    requires ScanOf(keys).Done? && a in ScanOf(keys).value
    ensures a.Name() != ""
    ensures exists i :: 0 <= i < |keys| && Complete(keys[i]) &&
                        a.Name() == keys[i].values["DisplayName"] &&
                        a.Version() == keys[i].values["DisplayVersion"] &&
                        a.Publisher() == keys[i].values["Publisher"]
  {
    ScanMember(keys, a);
    var i :| 0 <= i < |keys| && ReadApp(keys[i]) == Done(Some(a));
    assert Complete(keys[i]);
  }

  /** One subkey that cannot be read in full, wherever it sits, aborts the whole list. */
  lemma IncompleteEntryAbortsAll(before: seq<SubKey>, bad: SubKey, after: seq<SubKey>)
    requires !Complete(bad)
    ensures ScanOf(before + [bad] + after).Panic?
  {
    ScanDone(before + [bad] + after);
    assert (before + [bad] + after)[|before|] == bad;
  }

  /** `App::new`: the system native, system 32-bit, user native and user 32-bit lists, in that order. */
  function AllAppsOf(hklm: Hive, hkcu: Hive): Run<seq<App>> {
    Then(Then(Then(AppListOf(hklm, UninstallNative), AppListOf(hklm, UninstallWow)),
              AppListOf(hkcu, UninstallNative)),
         AppListOf(hkcu, UninstallWow))
  }

  /**
   * `App::new`: build the four lists and extend one vector with each. When
   * it returns at all it returns `Ok`; every failure is an abort.
   */
  method NewApps(hklm: Hive, hkcu: Hive) returns (r: Run<Result<seq<App>, string>>)
    ensures r.Done? ==> r.value.Success?
    ensures r.Done? <==> AllAppsOf(hklm, hkcu).Done?
    ensures r.Done? ==> r.value.value == AllAppsOf(hklm, hkcu).value
    ensures r.Panic? ==> r.fault == AllAppsOf(hklm, hkcu).fault
  {
    var systemApps := NewAppList(hklm, UninstallNative);
    if systemApps.Panic? { return Panic(systemApps.fault); }
    var systemApps32 := NewAppList(hklm, UninstallWow);
    if systemApps32.Panic? { return Panic(systemApps32.fault); }
    var userApps := NewAppList(hkcu, UninstallNative);
    if userApps.Panic? { return Panic(userApps.fault); }
    var userApps32 := NewAppList(hkcu, UninstallWow);
    if userApps32.Panic? { return Panic(userApps32.fault); }
    var apps: seq<App> := [];
    assert apps + systemApps.value == systemApps.value;
    apps := apps + systemApps.value;
    apps := apps + systemApps32.value;
    apps := apps + userApps.value;
    apps := apps + userApps32.value;
    r := Done(Success(apps));
  }

  /**
   * The combined list is the four lists one after the other, so its length
   * is the sum of theirs, and it exists exactly when all four scans complete.
   */
  lemma AllAppsConcatenates(hklm: Hive, hkcu: Hive)
    requires AllAppsOf(hklm, hkcu).Done?
    ensures AppListOf(hklm, UninstallNative).Done? && AppListOf(hklm, UninstallWow).Done? &&
            AppListOf(hkcu, UninstallNative).Done? && AppListOf(hkcu, UninstallWow).Done?
    ensures AllAppsOf(hklm, hkcu).value ==
            AppListOf(hklm, UninstallNative).value + AppListOf(hklm, UninstallWow).value +
            AppListOf(hkcu, UninstallNative).value + AppListOf(hkcu, UninstallWow).value
    ensures |AllAppsOf(hklm, hkcu).value| ==
            |AppListOf(hklm, UninstallNative).value| + |AppListOf(hklm, UninstallWow).value| +
            |AppListOf(hkcu, UninstallNative).value| + |AppListOf(hkcu, UninstallWow).value|
  {
  }
}
