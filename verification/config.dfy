/** The server configuration check: every entry of the environment record
    must be defined, otherwise start-up fails with a message naming the
    first missing key; a complete record is returned as it is. Reading the
    process environment is not modelled: the record is an input. */
module Config {
  import opened Results

  /** One `[key, value]` pair of `Object.entries(config)`; `None` is `undefined`. */
  datatype Entry = Entry(key: string, value: Option<string>)

  /** An entry whose value is known to be defined. */
  datatype DefinedEntry = DefinedEntry(key: string, value: string)

  /** The error message for an undefined entry. */
  function MissingKeyMessage(key: string): string
  {
    "Missing key " + key + " in config.env"
  }

  /** Every entry has a defined value. */
  predicate AllDefined(entries: seq<Entry>)
  {
    forall i :: 0 <= i < |entries| ==> entries[i].value.Some?
  }

  /** `k` is the position of the first undefined entry. */
  predicate FirstUndefined(entries: seq<Entry>, k: int)
  {
    0 <= k < |entries| && entries[k].value.None?
    && forall j :: 0 <= j < k ==> entries[j].value.Some?
  }

  /** The loop of `getSanitizedConfig` over the entries, in entry order. */
  method SanitizeEntries(entries: seq<Entry>) returns (r: Result<seq<DefinedEntry>, string>)
    ensures r.Success? <==> AllDefined(entries)
    ensures r.Success? ==>
      |r.value| == |entries|
      && forall i :: 0 <= i < |entries| ==>
           r.value[i].key == entries[i].key && entries[i].value == Some(r.value[i].value)
    ensures r.Failure? ==>
      exists k :: FirstUndefined(entries, k) && r.error == MissingKeyMessage(entries[k].key)
  {
    var defined: seq<DefinedEntry> := [];
    var i := 0;
    while i < |entries|
      invariant 0 <= i <= |entries|
      invariant |defined| == i
      invariant forall j :: 0 <= j < i ==>
        defined[j].key == entries[j].key && entries[j].value == Some(defined[j].value)
    {
      var entry := entries[i];
      if entry.value.None? {
        assert FirstUndefined(entries, i);
        return Failure(MissingKeyMessage(entry.key));
      }
      defined := defined + [DefinedEntry(entry.key, entry.value.value)];
      i := i + 1;
    }
    r := Success(defined);
  }

  /** The environment record the server reads: both keys may be undefined. */
  datatype Env = Env(nodeEnv: Option<string>, databaseUrl: Option<string>)

  /** The same record with every key defined. */
  datatype SanitizedConfig = SanitizedConfig(nodeEnv: string, databaseUrl: string)

  /** `Object.entries` of the record, in the order its keys are written. */
  function EnvEntries(env: Env): seq<Entry>
  {
    [Entry("NODE_ENV", env.nodeEnv), Entry("DATABASE_URL", env.databaseUrl)]
  }

  /** `getSanitizedConfig`: the record unchanged when both keys are defined,
      otherwise the failure naming `NODE_ENV` first, then `DATABASE_URL`. */
  method GetSanitizedConfig(env: Env) returns (r: Result<SanitizedConfig, string>)
    ensures r.Success? <==> env.nodeEnv.Some? && env.databaseUrl.Some?
    ensures r.Success? ==>
      env.nodeEnv == Some(r.value.nodeEnv) && env.databaseUrl == Some(r.value.databaseUrl)
    ensures env.nodeEnv.None? ==> r == Failure(MissingKeyMessage("NODE_ENV"))
    ensures env.nodeEnv.Some? && env.databaseUrl.None? ==>
      r == Failure(MissingKeyMessage("DATABASE_URL"))
  {
    var entries := EnvEntries(env);
    assert entries[0] == Entry("NODE_ENV", env.nodeEnv);
    assert entries[1] == Entry("DATABASE_URL", env.databaseUrl);
    var checked := SanitizeEntries(entries);
    match checked
    case Failure(message) =>
      var k :| FirstUndefined(entries, k) && message == MissingKeyMessage(entries[k].key);
      assert k == 0 <==> env.nodeEnv.None?;
      r := Failure(message);
    case Success(defined) =>
      assert entries[0].value.Some? && entries[1].value.Some?;
      r := Success(SanitizedConfig(defined[0].value, defined[1].value));
  }
}
