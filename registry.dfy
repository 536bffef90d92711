/**
 * The slice of the Windows registry the discovery code reads, as plain values.
 *
 * A hive (`HKEY_LOCAL_MACHINE`, `HKEY_CURRENT_USER`) is a map from a subtree
 * path to the subkeys found under it, in enumeration order. A subkey either
 * cannot be opened or holds named string values; the key's default value has
 * the empty name. A Rust `unwrap` that fails aborts the scan; that outcome is
 * a `Panic` carrying the reason.
 */
module Registry {
  import opened Wrappers

  /** The string values of one key, by value name (`""` is the default value). */
  type Values = map<string, string>

  /** One subkey as `open_subkey` sees it. */
  datatype SubKey = Unreadable | Readable(values: Values)

  /** A predefined root key: subtree path to its subkeys in enumeration order. */
  type Hive = map<string, seq<SubKey>>

  /** Why an `unwrap` aborted the scan. */
  datatype Fault =
    | KeyNotFound(path: string)          // open_subkey(path).unwrap() on a missing subtree
    | SubkeyUnreadable                   // open_subkey(subkey).unwrap() on a subkey that cannot be opened
    | ValueMissing(valueName: string)    // get_value(name).unwrap() on an absent value

  /** The outcome of a scan: it aborted with a fault, or it returned a value. */
  datatype Run<+T> = Panic(fault: Fault) | Done(value: T)

  /** `get_value(name)`, with an absent value as `None`. */
  function GetValue(values: Values, name: string): (r: Option<string>)
    ensures r.Some? <==> name in values
    ensures r.Some? ==> r.value == values[name]
  {
    if name in values then Some(values[name]) else None
  }

  /**
   * Two scans run one after the other and their vectors concatenated: the
   * first fault aborts everything that follows it.
   */
  function Then<T>(a: Run<seq<T>>, b: Run<seq<T>>): (r: Run<seq<T>>)
    ensures r.Done? <==> a.Done? && b.Done?
    ensures r.Done? ==> r.value == a.value + b.value
    ensures a.Panic? ==> r == a
    ensures a.Done? && b.Panic? ==> r == b
  {
    match a
    case Panic(f) => Panic(f)
    case Done(x) =>
      match b
      case Panic(g) => Panic(g)
      case Done(y) => Done(x + y)
  }

  /** Running three scans in sequence does not depend on how they are grouped. */
  lemma ThenAssoc<T>(a: Run<seq<T>>, b: Run<seq<T>>, c: Run<seq<T>>)
    ensures Then(Then(a, b), c) == Then(a, Then(b, c))
  {
    if a.Done? && b.Done? && c.Done? {
      AppendAssoc(a.value, b.value, c.value);
    }
  }

  /** Concatenation regrouped; stated once so that loops over subkeys can cite it. */
  lemma AppendAssoc<T>(a: seq<T>, b: seq<T>, c: seq<T>)
    ensures (a + b) + c == a + (b + c)
  {
  }

  /** The native and the 32-bit-compatibility uninstall subtrees scanned under each hive. */
  const Software: string := "SOFTWARE\\"
  const Wow6432Node: string := "Wow6432Node\\"
  const WindowsCurrentVersion: string := "Microsoft\\Windows\\CurrentVersion\\"
  const NativeCurrentVersion: string := Software + WindowsCurrentVersion
  const WowCurrentVersion: string := Software + Wow6432Node + WindowsCurrentVersion
  const UninstallNative: string := NativeCurrentVersion + "Uninstall"
  const UninstallWow: string := WowCurrentVersion + "Uninstall"
}
