/** The configuration helper (src/Helper/Data.php): five settings read from
    the store configuration under `debug/redirect/`, and the admin-area test.
    The store is a map from configuration path to its stored string; a path
    absent from the map reads as `null`. */
module Config {
  import opened Common
  import opened Bytes

  type Store = map<ByteString, ByteString>

  const Section: ByteString := "debug/redirect/"
  const EnabledPath: ByteString := Section + "enabled"
  const LogBacktracePath: ByteString := Section + "log_backtrace"
  const BacktraceLimitPath: ByteString := Section + "backtrace_limit"
  const LogRequestDataPath: ByteString := Section + "log_request_data"
  const ExcludeAdminPath: ByteString := Section + "exclude_admin"

  const DefaultBacktraceLimit := 15

  /** `scopeConfig->isSetFlag`: the stored value, taken as a PHP truth value
      (`null`, `''` and `'0'` are false). */
  predicate IsSetFlag(store: Store, path: ByteString)
  {
    path in store && IsTruthy(store[path])
  }

  /** `scopeConfig->getValue` followed by `(int)`; `(int)null` is 0. */
  function StoredInt(store: Store, path: ByteString): int
  {
    if path in store then IntCast(store[path]) else 0
  }

  predicate IsEnabled(store: Store) { IsSetFlag(store, EnabledPath) }
  predicate ShouldLogBacktrace(store: Store) { IsSetFlag(store, LogBacktracePath) }
  predicate ShouldLogRequestData(store: Store) { IsSetFlag(store, LogRequestDataPath) }
  predicate ShouldExcludeAdmin(store: Store) { IsSetFlag(store, ExcludeAdminPath) }

  /** `getBacktraceLimit`: the stored number, or 15 when it casts to 0. */
  function BacktraceLimit(store: Store): (n: int)
    ensures n != 0
    ensures StoredInt(store, BacktraceLimitPath) == 0 ==> n == DefaultBacktraceLimit
    ensures StoredInt(store, BacktraceLimitPath) != 0 ==> n == StoredInt(store, BacktraceLimitPath)
  {
    var v := StoredInt(store, BacktraceLimitPath);
    if v != 0 then v else DefaultBacktraceLimit
  }

  /** `isAdminArea`: the request's front name is exactly `admin` (a request
      without one is not in the admin area). */
  predicate IsAdminArea(frontName: Option<ByteString>)
  {
    frontName == Some("admin")
  }

  /** Everything the plugins read from the helper. Whether sensitive data is
      sanitized has no reader in the helper, so it is supplied from outside. */
  datatype Settings = Settings(
    enabled: bool,
    logBacktrace: bool,
    backtraceLimit: int,
    logRequestData: bool,
    excludeAdmin: bool,
    sanitizeSensitive: bool)

  function Load(store: Store, sanitizeSensitive: bool): (s: Settings)
    ensures s.enabled == IsEnabled(store)
    ensures s.logBacktrace == ShouldLogBacktrace(store)
    ensures s.backtraceLimit == BacktraceLimit(store)
    ensures s.logRequestData == ShouldLogRequestData(store)
    ensures s.excludeAdmin == ShouldExcludeAdmin(store)
    ensures s.sanitizeSensitive == sanitizeSensitive
  {
    Settings(IsEnabled(store), ShouldLogBacktrace(store), BacktraceLimit(store),
             ShouldLogRequestData(store), ShouldExcludeAdmin(store), sanitizeSensitive)
  }

  /** The gate every hook opens with: enabled, and not an excluded admin
      request. */
  predicate Active(s: Settings, frontName: Option<ByteString>)
  {
    s.enabled && !(s.excludeAdmin && IsAdminArea(frontName))
  }

  // ---------------------------------------------------------------------
  // Properties of the readers.
  // ---------------------------------------------------------------------

  const ConfigPaths: seq<ByteString> :=
    [EnabledPath, LogBacktracePath, BacktraceLimitPath, LogRequestDataPath, ExcludeAdminPath]

  /** The five paths are distinct keys under `debug/redirect/`, so each
      reader sees its own entry. */
  lemma PathsDistinct()
    ensures forall i :: 0 <= i < |ConfigPaths| ==> StartsWith(ConfigPaths[i], Section)
    ensures forall i, j :: 0 <= i < j < |ConfigPaths| ==> ConfigPaths[i] != ConfigPaths[j]
  {
    var names: seq<ByteString> :=
      ["enabled", "log_backtrace", "backtrace_limit", "log_request_data", "exclude_admin"];
    forall i | 0 <= i < |ConfigPaths| ensures ConfigPaths[i] == Section + names[i] {
    }
    forall i | 0 <= i < |ConfigPaths| ensures StartsWith(ConfigPaths[i], Section) {
      assert (Section + names[i])[..|Section|] == Section;
    }
    forall i, j | 0 <= i < j < |ConfigPaths| ensures ConfigPaths[i] != ConfigPaths[j] {
      assert (Section + names[i])[15] == names[i][0] && (Section + names[j])[15] == names[j][0];
      assert names[i][0] != names[j][0] || |names[i]| != |names[j]|;
    }
  }

  /** Changing the entry of one path changes no reader bound to another. */
  lemma ReadersLocal(store: Store, path: ByteString, value: ByteString)
    requires path != EnabledPath && path != LogBacktracePath && path != BacktraceLimitPath
    requires path != LogRequestDataPath && path != ExcludeAdminPath
    ensures Load(store[path := value], false) == Load(store, false)
  {
  }

  /** Storing a flag's path with a truthy value turns exactly that flag on. */
  lemma FlagReadsOwnPath(store: Store, value: ByteString)
    requires IsTruthy(value)
    ensures IsEnabled(store[EnabledPath := value])
    ensures ShouldLogBacktrace(store[EnabledPath := value]) == ShouldLogBacktrace(store)
    ensures ShouldLogRequestData(store[EnabledPath := value]) == ShouldLogRequestData(store)
    ensures ShouldExcludeAdmin(store[EnabledPath := value]) == ShouldExcludeAdmin(store)
    ensures BacktraceLimit(store[EnabledPath := value]) == BacktraceLimit(store)
  {
  }

  /** A stored limit written as a decimal is read back as that number (as
      far as the 64-bit range reaches); a zero limit reads as 15. */
  lemma BacktraceLimitOfDecimal(store: Store, n: nat)
    ensures BacktraceLimit(store[BacktraceLimitPath := DecimalString(n)]) ==
      (if n == 0 then DefaultBacktraceLimit else Min(n, LongMax))
  {
    IntCastOfDecimal(n);
  }

  /** A limit written with an exponent is read with it: `1e2` is 100 frames. */
  lemma BacktraceLimitOfExponent(store: Store, m: nat, k: nat)
    requires m > 0
    ensures BacktraceLimit(store[BacktraceLimitPath := DecimalString(m) + "e" + DecimalString(k)]) ==
      Min(m * Pow10(k), LongMax)
  {
    IntCastOfExponent(m, k);
    ShiftIsProduct(m, k);
    ShiftPositive(m, k);
  }

  /** A negative stored limit is kept as it is, not replaced by the default. */
  lemma NegativeLimitKept(store: Store, n: nat)
    requires n > 0
    ensures BacktraceLimit(store[BacktraceLimitPath := "-" + DecimalString(n)]) == Max(LongMin, -(n as int))
  {
    IntCastOfNegativeDecimal(n);
  }

  /** An unset limit reads as the default. */
  lemma UnsetLimitDefault(store: Store)
    requires BacktraceLimitPath !in store
    ensures BacktraceLimit(store) == DefaultBacktraceLimit
  {
  }

  /** `isAdminArea` compares case-sensitively: `Admin` is not the admin area. */
  lemma AdminAreaCaseSensitive()
    ensures IsAdminArea(Some("admin"))
    ensures !IsAdminArea(Some("Admin"))
    ensures !IsAdminArea(None)
  {
    assert "Admin"[0] != "admin"[0];
  }
}
