/**
 * The service-context telemetry initializer: at construction it takes a
 * snapshot of the application name, the application version and every
 * `APPINSIGHTS_APP_CONTEXT_`-prefixed variable of the process environment;
 * `Initialize` then writes that snapshot into each telemetry record.
 *
 * The process environment is an input here: a sequence of (name, value)
 * pairs in the order in which the environment enumerates its names.
 */
module ServiceContext {
  import opened Wrappers
  import opened Strings
  import opened Telemetry

  /** The process environment, in enumeration order. */
  type Environment = seq<(string, string)>

  const NameEnvironmentVariable: string := "APPINSIGHTS_APP_NAME"
  const VersionEnvironmentVariable: string := "APPINSIGHTS_APP_VERSION"
  const ContextEnvironmentVariablePrefix: string := "APPINSIGHTS_APP_CONTEXT_"
  const ContextPrefixLength: nat := |ContextEnvironmentVariablePrefix|

  // ---------------------------------------------------------------------
  // Reading one variable
  // ---------------------------------------------------------------------

  /**
   * The value of the variable called exactly `name` (a case-sensitive
   * lookup); the first such entry when the sequence names it twice.
   */
  function Lookup(env: Environment, name: string): (r: Option<string>)
    ensures r.None? <==> forall i :: 0 <= i < |env| ==> env[i].0 != name
    ensures r.Some? ==>
      exists i :: 0 <= i < |env| && env[i] == (name, r.value) && forall j :: 0 <= j < i ==> env[j].0 != name
  {
    if env == [] then None
    else if env[0].0 == name then Some(env[0].1)
    else
      var r := Lookup(env[1..], name);
      assert forall i :: 0 <= i < |env| - 1 ==> env[1..][i] == env[i + 1];
      r
  }

  /**
   * `GetEnvironmentVariable`: a variable that is unset or set to the empty
   * string reads as absent; any other value is kept as it is.
   */
  function GetEnvironmentVariable(env: Environment, name: string): (r: Option<string>)
    ensures r.None? <==> Lookup(env, name) == None || Lookup(env, name) == Some("")
    ensures r.Some? ==> r == Lookup(env, name) && r.value != ""
  {
    var value := Lookup(env, name);
    if value.None? || value.value == "" then None else value
  }

  // ---------------------------------------------------------------------
  // Context variables
  // ---------------------------------------------------------------------

  /** Does the variable `name` contribute to the context (prefix matched ignoring case)? */
  predicate IsContextVariable(name: string)
    ensures IsContextVariable(name) ==> ContextPrefixLength <= |name|
  {
    StartsWithIgnoreCase(name, ContextEnvironmentVariablePrefix)
  }

  /**
   * The two variables read by exact name are too short to match the context
   * prefix, so they are never also scanned into the context.
   */
  lemma DistinguishedNamesAreNotContextVariables()
    ensures !IsContextVariable(NameEnvironmentVariable)
    ensures !IsContextVariable(VersionEnvironmentVariable)
  {
  }

  /**
   * The context key of a context variable: its name without the first
   * `ContextPrefixLength` characters, whatever their case was.
   */
  function ContextKey(name: string): (key: string)
    requires IsContextVariable(name)
    ensures |key| == |name| - ContextPrefixLength
    ensures name == name[..ContextPrefixLength] + key
  {
    name[ContextPrefixLength..]
  }

  /** The variable `name` is a context variable whose key is `key`. */
  predicate Yields(name: string, key: string)
  {
    IsContextVariable(name) && ContextKey(name) == key
  }

  /** Entry `i` is the earliest entry of `env` that yields `key`. */
  predicate FirstYield(env: Environment, i: int, key: string)
  {
    0 <= i < |env| && Yields(env[i].0, key) &&
    forall j :: 0 <= j < i ==> !Yields(env[j].0, key)
  }

  /**
   * The context a scan of `env` produces, as a reference definition: an
   * entry overrides whatever the entries after it stored under its key, so
   * the earliest entry for a key is the one that remains.
   */
  function Parsed(env: Environment): map<string, string>
  {
    if env == [] then map[]
    else
      var rest := Parsed(env[1..]);
      if IsContextVariable(env[0].0) then rest[ContextKey(env[0].0) := env[0].1] else rest
  }

  /**
   * Scanning one more entry: it is added when it is a context variable whose
   * key is not present yet, and otherwise changes nothing.
   */
  lemma {:induction false} ParsedSnoc(env: Environment, e: (string, string))
    ensures Parsed(env + [e]) ==
      if IsContextVariable(e.0) && ContextKey(e.0) !in Parsed(env)
      then Parsed(env)[ContextKey(e.0) := e.1]
      else Parsed(env)
  {
    if env == [] {
      assert env + [e] == [e];
      assert [e][1..] == [];
    } else {
      assert (env + [e])[1..] == env[1..] + [e];
      ParsedSnoc(env[1..], e);
    }
  }

  /**
   * `ParseContext`: scans the environment in enumeration order and keeps,
   * for each context key, the value of the first variable that yields it.
   * A missing (null) environment gives the empty context.
   */
  method ParseContext(environment: Option<Environment>) returns (ctx: map<string, string>)
    ensures environment.None? ==> ctx == map[]
    ensures environment.Some? ==> ctx == Parsed(environment.value)
  {
    ctx := map[];
    if environment.Some? {
      var env := environment.value;
      for i := 0 to |env|
        invariant ctx == Parsed(env[..i])
      {
        var (varName, value) := env[i];
        if StartsWithIgnoreCase(varName, ContextEnvironmentVariablePrefix) {
          var key := varName[ContextPrefixLength..];
          if key !in ctx {
            ctx := ctx[key := value];
          }
        }
        ParsedSnoc(env[..i], env[i]);
        assert env[..i + 1] == env[..i] + [env[i]];
      }
      assert env[..|env|] == env;
    }
  }

  // ---------------------------------------------------------------------
  // What the scan keeps
  // ---------------------------------------------------------------------

  /** The keys of the context are exactly the stripped names of the context variables. */
  lemma {:induction false} ParsedKeys(env: Environment, key: string)
    ensures key in Parsed(env) <==> exists i :: 0 <= i < |env| && Yields(env[i].0, key)
  {
    if env != [] {
      ParsedKeys(env[1..], key);
      if key in Parsed(env) && !Yields(env[0].0, key) {
        var i :| 0 <= i < |env[1..]| && Yields(env[1..][i].0, key);
        assert Yields(env[i + 1].0, key);
      }
      if exists i :: 0 <= i < |env| && Yields(env[i].0, key) {
        var i :| 0 <= i < |env| && Yields(env[i].0, key);
        if i > 0 {
          assert Yields(env[1..][i - 1].0, key);
        }
      }
    }
  }

  /** First wins: the earliest variable that yields a key supplies its value. */
  lemma {:induction false} ParsedFirstWins(env: Environment, i: int, key: string)
    requires FirstYield(env, i, key)
    ensures key in Parsed(env) && Parsed(env)[key] == env[i].1
  {
    if i > 0 {
      assert forall j :: 0 <= j < i - 1 ==> env[1..][j] == env[j + 1];
      ParsedFirstWins(env[1..], i - 1, key);
    }
  }

  /** Every stored value is the value of the earliest variable yielding its key. */
  lemma {:induction false} ParsedValueOrigin(env: Environment, key: string)
    requires key in Parsed(env)
    ensures exists i :: FirstYield(env, i, key) && Parsed(env)[key] == env[i].1
  {
    if Yields(env[0].0, key) {
      assert FirstYield(env, 0, key);
    } else {
      ParsedValueOrigin(env[1..], key);
      var i :| FirstYield(env[1..], i, key) && Parsed(env[1..])[key] == env[1..][i].1;
      assert forall j :: 1 <= j < i + 1 ==> env[j] == env[1..][j - 1];
      assert FirstYield(env, i + 1, key);
    }
  }

  /** A variable that is not a context variable contributes nothing, wherever it stands. */
  lemma {:induction false} NonContextVariableIgnored(pre: Environment, e: (string, string), post: Environment)
    requires !IsContextVariable(e.0)
    ensures Parsed(pre + [e] + post) == Parsed(pre + post)
  {
    if pre == [] {
      assert pre + [e] + post == [e] + post;
      assert ([e] + post)[1..] == post;
      assert pre + post == post;
    } else {
      assert (pre + [e] + post)[1..] == pre[1..] + [e] + post;
      assert (pre + post)[1..] == pre[1..] + post;
      NonContextVariableIgnored(pre[1..], e, post);
    }
  }

  /** Once `e`'s key is overwritten, removing `e` from the scan makes no difference. */
  lemma {:induction false} ShadowedEntry(pre: Environment, e: (string, string), post: Environment, v: string)
    requires IsContextVariable(e.0)
    ensures Parsed(pre + [e] + post)[ContextKey(e.0) := v] == Parsed(pre + post)[ContextKey(e.0) := v]
  {
    if pre == [] {
      assert pre + [e] + post == [e] + post;
      assert ([e] + post)[1..] == post;
      assert pre + post == post;
    } else {
      assert (pre + [e] + post)[1..] == pre[1..] + [e] + post;
      assert (pre + post)[1..] == pre[1..] + post;
      ShadowedEntry(pre[1..], e, post, v);
      var k, a, b := ContextKey(e.0), Parsed(pre[1..] + [e] + post), Parsed(pre[1..] + post);
      if IsContextVariable(pre[0].0) {
        var (h, hv) := pre[0];
        if ContextKey(h) == k {
          assert a[k := hv][k := v] == a[k := v];
          assert b[k := hv][k := v] == b[k := v];
        } else {
          assert a[ContextKey(h) := hv][k := v] == a[k := v][ContextKey(h) := hv];
          assert b[ContextKey(h) := hv][k := v] == b[k := v][ContextKey(h) := hv];
        }
      }
    }
  }

  /**
   * A later variable whose key an earlier one already supplied is ignored,
   * wherever it stands after it.
   */
  lemma {:induction false} LaterDuplicateIgnored(pre: Environment, e: (string, string), post: Environment)
    requires IsContextVariable(e.0) && ContextKey(e.0) in Parsed(pre)
    ensures Parsed(pre + [e] + post) == Parsed(pre + post)
  {
    assert pre != [];
    assert (pre + [e] + post)[1..] == pre[1..] + [e] + post;
    assert (pre + post)[1..] == pre[1..] + post;
    if ContextKey(e.0) in Parsed(pre[1..]) {
      LaterDuplicateIgnored(pre[1..], e, post);
    } else {
      ShadowedEntry(pre[1..], e, post, pre[0].1);
    }
  }

  // ---------------------------------------------------------------------
  // Enrichment
  // ---------------------------------------------------------------------

  /** What an initializer holds after construction. */
  datatype Snapshot = Snapshot(name: Option<string>, version: Option<string>, context: map<string, string>)

  /**
   * The record `Initialize` leaves behind: a stored version and name
   * overwrite the slots, an absent one leaves its slot alone, and every
   * context entry is written into the property bag.
   */
  function Enrich(s: Snapshot, r: Record): Record
  {
    Record(
      if s.name.Some? then s.name else r.roleName,
      if s.version.Some? then s.version else r.componentVersion,
      r.properties + s.context)
  }

  /** Initializing a record twice gives the same record as initializing it once. */
  lemma EnrichIdempotent(s: Snapshot, r: Record)
    ensures Enrich(s, Enrich(s, r)) == Enrich(s, r)
  {
  }

  /** With no name, no version and an empty context, a record is left as it was. */
  lemma EmptySnapshotIsNoOp(r: Record)
    ensures Enrich(Snapshot(None, None, map[]), r) == r
  {
  }

  /**
   * The snapshot the public constructor takes of `env`: the name and the
   * version read by exact name, and the scanned context.
   */
  function SnapshotOf(env: Environment): Snapshot
  {
    Snapshot(GetEnvironmentVariable(env, NameEnvironmentVariable),
             GetEnvironmentVariable(env, VersionEnvironmentVariable),
             Parsed(env))
  }

  /** The snapshot of an empty environment changes no record. */
  lemma EmptyEnvironmentIsNoOp(r: Record)
    ensures Enrich(SnapshotOf([]), r) == r
  {
  }

  /**
   * Prefix-strip law: a variable named by any case variant of the prefix
   * followed by `key` puts `key`, spelled as it was, into every enriched
   * record's property bag, with its own value when no earlier variable
   * yields the same key.
   */
  lemma PrefixStripLaw(env: Environment, i: int, prefix: string, key: string, r: Record)
    requires 0 <= i < |env| && env[i].0 == prefix + key
    requires |prefix| == ContextPrefixLength
    requires forall j :: 0 <= j < |prefix| ==> EqualsIgnoreCase(prefix[j], ContextEnvironmentVariablePrefix[j])
    requires forall j :: 0 <= j < i ==> !Yields(env[j].0, key)
    ensures key in Enrich(SnapshotOf(env), r).properties
    ensures Enrich(SnapshotOf(env), r).properties[key] == env[i].1
  {
    assert forall j :: 0 <= j < |prefix| ==> (prefix + key)[j] == prefix[j];
    assert (prefix + key)[ContextPrefixLength..] == key;
    assert FirstYield(env, i, key);
    ParsedFirstWins(env, i, key);
  }

  /**
   * A key that no variable yields is not added to the property bag:
   * variables outside the context prefix never reach the record.
   */
  lemma UnrelatedKeyNotAdded(env: Environment, key: string, r: Record)
    requires forall i :: 0 <= i < |env| ==> !Yields(env[i].0, key)
    requires key !in r.properties
    ensures key !in Enrich(SnapshotOf(env), r).properties
  {
    ParsedKeys(env, key);
  }

  /**
   * The prefix is stripped once: a name that repeats the prefix keeps the
   * second copy in its key, and the bare prefix yields the empty key.
   */
  lemma PrefixStrippedOnce()
    ensures Yields(ContextEnvironmentVariablePrefix + ContextEnvironmentVariablePrefix + "X",
                   ContextEnvironmentVariablePrefix + "X")
    ensures Yields(ContextEnvironmentVariablePrefix, "")
  {
  }

  class ServiceContextTelemetryIntitializer {
    const name: Option<string>
    const version: Option<string>
    const context: map<string, string>

    /**
     * The public constructor: reads the name and the version by exact name
     * (empty meaning absent) and scans the whole environment for context
     * variables.
     */
    constructor FromEnvironment(environment: Environment)
      ensures CurrentSnapshot() == SnapshotOf(environment)
    {
      name := GetEnvironmentVariable(environment, NameEnvironmentVariable);
      version := GetEnvironmentVariable(environment, VersionEnvironmentVariable);
      var ctx := ParseContext(Some(environment));
      context := ctx;
    }

    /**
     * The internal constructor: takes the name and the version as given
     * (an empty string is kept) and a possibly missing environment.
     */
    constructor (name: Option<string>, version: Option<string>, environment: Option<Environment>)
      ensures this.name == name && this.version == version
      ensures environment.None? ==> context == map[]
      ensures environment.Some? ==> context == Parsed(environment.value)
    {
      this.name := name;
      this.version := version;
      var ctx := ParseContext(environment);
      context := ctx;
    }

    /** The three values this initializer writes into every record. */
    function CurrentSnapshot(): Snapshot
    {
      Snapshot(name, version, context)
    }

    /**
     * Writes the snapshot into `telemetry`: the version and the role name
     * when they are stored, then every context entry into the property bag.
     */
    method Initialize(telemetry: TelemetryRecord)
      modifies telemetry
      ensures version.Some? ==> telemetry.componentVersion == version
      ensures version.None? ==> telemetry.componentVersion == old(telemetry.componentVersion)
      ensures name.Some? ==> telemetry.roleName == name
      ensures name.None? ==> telemetry.roleName == old(telemetry.roleName)
      ensures telemetry.properties.Keys == old(telemetry.properties).Keys + context.Keys
      ensures forall k :: k in context ==> telemetry.properties[k] == context[k]
      ensures forall k :: k in old(telemetry.properties) && k !in context ==>
                telemetry.properties[k] == old(telemetry.properties)[k]
      ensures telemetry.View() == Enrich(CurrentSnapshot(), old(telemetry.View()))
    {
      if version.Some? {
        telemetry.componentVersion := version;
      }
      if name.Some? {
        telemetry.roleName := name;
      }
      var remaining := context.Keys;
      while remaining != {}
        invariant remaining <= context.Keys
        invariant telemetry.componentVersion == if version.Some? then version else old(telemetry.componentVersion)
        invariant telemetry.roleName == if name.Some? then name else old(telemetry.roleName)
        invariant telemetry.properties == old(telemetry.properties) + (context - remaining)
        decreases remaining
      {
        var key :| key in remaining;
        telemetry.properties := telemetry.properties[key := context[key]];
        remaining := remaining - {key};
      }
    }
  }
}
