/** The array service-description builder
    (src/Guzzle/Service/Description/ArrayDescriptionBuilder.php): each
    operation of the configuration is named, resolved against the operations
    it extends that were built before it, given its command class, and
    stored under its name.

    The Operation class is not part of this model: an operation is taken to
    keep the configuration it is built from, which `toArray` returns, and
    the default command class is a parameter. */
module Description {
  import opened Php

  const NameKey := "name"
  const ExtendsKey := "extends"
  const ParametersKey := "parameters"
  const ClassKey := "class"

  /** The four keys the builder reads and writes are different keys. */
  lemma KeysDiffer()
    ensures NameKey != ParametersKey && NameKey != ClassKey && NameKey != ExtendsKey
    ensures ParametersKey != ClassKey && ParametersKey != ExtendsKey && ClassKey != ExtendsKey
  {
    assert |NameKey| == 4 && |ExtendsKey| == 7 && |ParametersKey| == 10 && |ClassKey| == 5;
  }

  /** A built operation and the configuration it keeps. */
  datatype Operation = Operation(config: Assoc<Value>)

  function ToArray(o: Operation): Assoc<Value> {
    o.config
  }

  datatype ServiceDescription = ServiceDescription(operations: Assoc<Operation>)

  // ---------------------------------------------------------------------
  // The configuration of one operation

  /** The entries of an array value; a value that is not an array has none. */
  function Entries(v: Value): Assoc<Value> {
    if v.Arr? then v.entries else []
  }

  function ParamsOf(c: Assoc<Value>): Assoc<Value> {
    Entries(Get(c, ParametersKey))
  }

  /** An operation configuration as PHP holds it: no key twice, at the top
      and in its parameters. */
  predicate Keyed(c: Assoc<Value>) {
    DistinctKeys(c) && DistinctKeys(ParamsOf(c))
  }

  /** The name: the `name` entry when it is set, otherwise the key. */
  function NameOf(key: string, raw: Assoc<Value>): Value {
    if IsSet(raw, NameKey) then Get(raw, NameKey) else Str(key)
  }

  /** The key the built operation is stored under. */
  function OpKey(entry: (string, Assoc<Value>)): string {
    ToPhpString(NameOf(entry.0, entry.1))
  }

  /** The configuration with its `name` entry assigned. */
  function Named(key: string, raw: Assoc<Value>): Assoc<Value> {
    Put(raw, NameKey, NameOf(key, raw))
  }

  /** `(array) $op['extends']` when the entry is not empty; otherwise none. */
  function ExtendsOf(op: Assoc<Value>): seq<Value> {
    var v := Get(op, ExtendsKey);
    if !Truthy(v) then []
    else if v.Arr? then seq(|v.entries|, i requires 0 <= i < |v.entries| => v.entries[i].1)
    else [v]
  }

  /** An operation extends others exactly when its `extends` entry is not empty. */
  lemma ExtendsNone(op: Assoc<Value>)
    ensures ExtendsOf(op) == [] <==> !Truthy(Get(op, ExtendsKey))
  {
    var v := Get(op, ExtendsKey);
    if Truthy(v) && v.Arr? { assert |ExtendsOf(op)| == |v.entries| > 0; }
  }

  /** The operation's own parameters when they are not empty. */
  function OwnParameters(op: Assoc<Value>): Option<Assoc<Value>> {
    if Truthy(Get(op, ParametersKey)) then Some(Entries(Get(op, ParametersKey))) else None
  }

  function MissingMessage(name: Value, ext: Value): string {
    ToPhpString(name) + " extends missing operation " + ToPhpString(ext)
  }

  predicate Missing(ops: Assoc<Operation>, ext: Value) {
    !HasKey(ops, ToPhpString(ext))
  }

  /** What the extends loop accumulates: the inherited parameters and the
      configuration merged so far. */
  datatype Resolution = Resolution(parameters: Assoc<Value>, config: Assoc<Value>)

  /** The extends loop over the first |exts| operations extended. */
  function Resolve(ops: Assoc<Operation>, name: Value, exts: seq<Value>, op: Assoc<Value>)
    : Result<Resolution, string>
  {
    if exts == [] then Ok(Resolution([], op))
    else
      var n := |exts| - 1;
      match Resolve(ops, name, exts[..n], op)
      case Err(e) => Err(e)
      case Ok(s) =>
        match Lookup(ops, ToPhpString(exts[n]))
        case None => Err(MissingMessage(name, exts[n]))
        case Some(o) =>
          var t := ToArray(o);
          Ok(Resolution(if s.parameters == [] then ParamsOf(t) else Merge(s.parameters, ParamsOf(t)),
                        Merge(t, s.config)))
  }

  /** The inherited parameters overridden by the operation's own. */
  function Overridden(inherited: Assoc<Value>, own: Option<Assoc<Value>>): Assoc<Value> {
    match own
    case None => inherited
    case Some(o) => Merge(inherited, o)
  }

  /** The `class` entry, or the default class when it is not set. */
  function WithClass(op: Assoc<Value>, defaultClass: Value): Assoc<Value> {
    Put(op, ClassKey, if IsSet(op, ClassKey) then Get(op, ClassKey) else defaultClass)
  }

  /** The configuration an operation has before its class is settled: named
      and, when it extends others, merged with them. */
  function Merged(ops: Assoc<Operation>, key: string, raw: Assoc<Value>): Result<Assoc<Value>, string> {
    var op := Named(key, raw);
    var exts := ExtendsOf(op);
    if exts == [] then Ok(op)
    else
      match Resolve(ops, NameOf(key, raw), exts, op)
      case Err(e) => Err(e)
      case Ok(s) => Ok(Put(s.config, ParametersKey, Arr(Overridden(s.parameters, OwnParameters(op)))))
  }

  /** The configuration an operation is built from, given the operations
      built before it. */
  function Compile(ops: Assoc<Operation>, key: string, raw: Assoc<Value>, defaultClass: Value)
    : Result<Assoc<Value>, string>
  {
    match Merged(ops, key, raw)
    case Err(e) => Err(e)
    case Ok(op) => Ok(WithClass(op, defaultClass))
  }

  /** The operations built from the entries, in order; a later operation
      with the same name replaces an earlier one. */
  function Built(entries: Assoc<Assoc<Value>>, defaultClass: Value): Result<Assoc<Operation>, string> {
    if entries == [] then Ok([])
    else
      var n := |entries| - 1;
      match Built(entries[..n], defaultClass)
      case Err(e) => Err(e)
      case Ok(ops) =>
        match Compile(ops, entries[n].0, entries[n].1, defaultClass)
        case Err(e) => Err(e)
        case Ok(c) => Ok(Put(ops, OpKey(entries[n]), Operation(c)))
  }

  /** `build`: no operations when the `operations` entry is missing or empty. */
  function Describe(operations: Option<Assoc<Assoc<Value>>>, defaultClass: Value)
    : Result<ServiceDescription, string>
  {
    match operations
    case None => Ok(ServiceDescription([]))
    case Some(entries) =>
      match Built(entries, defaultClass)
      case Err(e) => Err(e)
      case Ok(ops) => Ok(ServiceDescription(ops))
  }

  // ---------------------------------------------------------------------
  // The builder's loops

  /** The inner loop over the operations extended. */
  method ResolveExtends(ops: Assoc<Operation>, name: Value, exts: seq<Value>, op0: Assoc<Value>)
    returns (r: Result<Resolution, string>)
    ensures r == Resolve(ops, name, exts, op0)
  {
    var resolved: Assoc<Value> := [];
    var op := op0;
    for i := 0 to |exts|
      invariant Resolve(ops, name, exts[..i], op0) == Ok(Resolution(resolved, op))
    {
      assert exts[..i + 1][..i] == exts[..i];
      var found := Lookup(ops, ToPhpString(exts[i]));
      if found.None? {
        ResolveStops(ops, name, exts, op0, i + 1);
        return Err(MissingMessage(name, exts[i]));
      }
      var toArray := ToArray(found.value);
      resolved := if resolved == [] then ParamsOf(toArray) else Merge(resolved, ParamsOf(toArray));
      op := Merge(toArray, op);
    }
    assert exts[..|exts|] == exts;
    r := Ok(Resolution(resolved, op));
  }

  /** A failure after i operations is the failure of the whole loop. */
  lemma {:induction false} ResolveStops(ops: Assoc<Operation>, name: Value, exts: seq<Value>, op: Assoc<Value>, i: nat)
    requires i <= |exts|
    requires Resolve(ops, name, exts[..i], op).Err?
    ensures Resolve(ops, name, exts, op) == Resolve(ops, name, exts[..i], op)
    decreases |exts| - i
  {
    if i < |exts| {
      assert exts[..i + 1][..i] == exts[..i];
      ResolveStops(ops, name, exts, op, i + 1);
    } else {
      assert exts[..i] == exts;
    }
  }

  /** One operation of the outer loop. */
  method CompileOperation(ops: Assoc<Operation>, key: string, raw: Assoc<Value>, defaultClass: Value)
    returns (r: Result<Assoc<Value>, string>)
    ensures r == Compile(ops, key, raw, defaultClass)
  {
    var name := NameOf(key, raw);
    var op := Put(raw, NameKey, name);
    assert op == Named(key, raw);
    ExtendsNone(op);
    if Truthy(Get(op, ExtendsKey)) {
      var original := OwnParameters(op);
      var resolution := ResolveExtends(ops, name, ExtendsOf(op), op);
      if resolution.Err? {
        return Err(resolution.error);
      }
      op := Put(resolution.value.config, ParametersKey, Arr(Overridden(resolution.value.parameters, original)));
    }
    op := Put(op, ClassKey, if IsSet(op, ClassKey) then Get(op, ClassKey) else defaultClass);
    r := Ok(op);
  }

  /** `build`. */
  method Build(operations: Option<Assoc<Assoc<Value>>>, defaultClass: Value)
    returns (r: Result<ServiceDescription, string>)
    ensures r == Describe(operations, defaultClass)
    ensures operations == None || operations == Some([]) ==> r == Ok(ServiceDescription([]))
  {
    var built: Assoc<Operation> := [];
    if operations.Some? && operations.value != [] {
      var entries := operations.value;
      for i := 0 to |entries|
        invariant Built(entries[..i], defaultClass) == Ok(built)
      {
        var c := CompileOperation(built, entries[i].0, entries[i].1, defaultClass);
        BuiltNext(entries, defaultClass, i, built);
        if c.Err? {
          BuiltStops(entries, defaultClass, i + 1);
          return Err(c.error);
        }
        built := Put(built, OpKey(entries[i]), Operation(c.value));
      }
      assert entries[..|entries|] == entries;
    }
    r := Ok(ServiceDescription(built));
  }

  /** One more entry compiled against the operations built so far. */
  lemma BuiltNext(entries: Assoc<Assoc<Value>>, defaultClass: Value, i: nat, ops: Assoc<Operation>)
    requires i < |entries| && Built(entries[..i], defaultClass) == Ok(ops)
    ensures var c := Compile(ops, entries[i].0, entries[i].1, defaultClass);
      Built(entries[..i + 1], defaultClass)
        == if c.Err? then Err(c.error) else Ok(Put(ops, OpKey(entries[i]), Operation(c.value)))
  {
    assert entries[..i + 1][..i] == entries[..i];
  }

  /** A failure at operation i - 1 is the failure of the whole build. */
  lemma {:induction false} BuiltStops(entries: Assoc<Assoc<Value>>, defaultClass: Value, i: nat)
    requires i <= |entries|
    requires Built(entries[..i], defaultClass).Err?
    ensures Built(entries, defaultClass) == Built(entries[..i], defaultClass)
    decreases |entries| - i
  {
    if i < |entries| {
      assert entries[..i + 1][..i] == entries[..i];
      BuiltStops(entries, defaultClass, i + 1);
    } else {
      assert entries[..i] == entries;
    }
  }

  // ---------------------------------------------------------------------
  // What resolving the extended operations gives

  /** One more operation extended fails the loop when the loop failed
      before or that operation is missing. */
  lemma ResolveStep(ops: Assoc<Operation>, name: Value, exts: seq<Value>, op: Assoc<Value>)
    requires exts != []
    ensures Resolve(ops, name, exts, op).Err? <==>
      Resolve(ops, name, exts[..|exts| - 1], op).Err? || Missing(ops, exts[|exts| - 1])
  {
  }

  /** Every operation extended was built before. */
  predicate AllBuilt(ops: Assoc<Operation>, exts: seq<Value>) {
    forall i :: 0 <= i < |exts| ==> !Missing(ops, exts[i])
  }

  lemma AllBuiltStep(ops: Assoc<Operation>, exts: seq<Value>)
    requires exts != []
    ensures AllBuilt(ops, exts) <==> AllBuilt(ops, exts[..|exts| - 1]) && !Missing(ops, exts[|exts| - 1])
  {
    var n := |exts| - 1;
    assert forall i :: 0 <= i < n ==> exts[i] == exts[..n][i];
  }

  /** The extends loop fails exactly when an extended operation was not
      built before. */
  lemma {:induction false} ResolveFails(ops: Assoc<Operation>, name: Value, exts: seq<Value>, op: Assoc<Value>)
    ensures Resolve(ops, name, exts, op).Err? <==> !AllBuilt(ops, exts)
  {
    if exts != [] {
      ResolveFails(ops, name, exts[..|exts| - 1], op);
      ResolveStep(ops, name, exts, op);
      AllBuiltStep(ops, exts);
    }
  }

  /** `exts[i]` is the first operation extended that was not built. */
  predicate FirstMissing(ops: Assoc<Operation>, exts: seq<Value>, i: int) {
    0 <= i < |exts| && Missing(ops, exts[i]) && forall j :: 0 <= j < i ==> !Missing(ops, exts[j])
  }

  lemma FirstMissingPrefix(ops: Assoc<Operation>, exts: seq<Value>, n: nat, i: nat)
    requires n <= |exts| && FirstMissing(ops, exts[..n], i)
    ensures FirstMissing(ops, exts, i)
  {
    assert forall j :: 0 <= j <= i ==> exts[j] == exts[..n][j];
  }

  lemma FirstMissingLast(ops: Assoc<Operation>, exts: seq<Value>)
    requires exts != [] && AllBuilt(ops, exts[..|exts| - 1]) && Missing(ops, exts[|exts| - 1])
    ensures FirstMissing(ops, exts, |exts| - 1)
  {
    var n := |exts| - 1;
    assert forall j :: 0 <= j < n ==> exts[j] == exts[..n][j];
  }

  /** How the last operation extended decides a failure. */
  lemma ResolveLast(ops: Assoc<Operation>, name: Value, exts: seq<Value>, op: Assoc<Value>)
    requires exts != [] && Resolve(ops, name, exts, op).Err?
    ensures var p := Resolve(ops, name, exts[..|exts| - 1], op);
      if p.Err? then Resolve(ops, name, exts, op) == p
      else (Missing(ops, exts[|exts| - 1])
            && Resolve(ops, name, exts, op).error == MissingMessage(name, exts[|exts| - 1]))
  {
  }

  /** The failure's message names the operation and the first extended
      operation missing. */
  lemma {:induction false} ResolveFailure(ops: Assoc<Operation>, name: Value, exts: seq<Value>, op: Assoc<Value>)
    requires Resolve(ops, name, exts, op).Err?
    ensures exists i :: FirstMissing(ops, exts, i) && Resolve(ops, name, exts, op).error == MissingMessage(name, exts[i])
  {
    var n := |exts| - 1;
    var p := exts[..n];
    ResolveLast(ops, name, exts, op);
    if Resolve(ops, name, p, op).Err? {
      ResolveFailure(ops, name, p, op);
      var i :| FirstMissing(ops, p, i) && Resolve(ops, name, p, op).error == MissingMessage(name, p[i]);
      FirstMissingPrefix(ops, exts, n, i);
      assert exts[i] == p[i];
    } else {
      ResolveFails(ops, name, p, op);
      FirstMissingLast(ops, exts);
    }
  }

  /** Built operations as the builder keeps them: one per name, each
      configuration keyed. */
  predicate Registry(ops: Assoc<Operation>) {
    DistinctKeys(ops) && forall i :: 0 <= i < |ops| ==> Keyed(ops[i].1.config)
  }

  lemma LookupRegistry(ops: Assoc<Operation>, k: string)
    requires Registry(ops) && HasKey(ops, k)
    ensures Keyed(Lookup(ops, k).value.config)
  {
    var i :| 0 <= i < |ops| && ops[i].0 == k;
  }

  lemma PutRegistry(ops: Assoc<Operation>, k: string, o: Operation)
    requires Registry(ops) && Keyed(o.config)
    ensures Registry(Put(ops, k, o))
  {
    var r := Put(ops, k, o);
    forall i | 0 <= i < |r| ensures Keyed(r[i].1.config) {
      assert Lookup(r, r[i].0) == Some(r[i].1);
      if r[i].0 != k {
        LookupRegistry(ops, r[i].0);
      }
    }
  }

  /** The value of key k in the first operation extended that has it. */
  function FirstInherited(ops: Assoc<Operation>, exts: seq<Value>, k: string): Option<Value> {
    if exts == [] then None
    else
      var n := |exts| - 1;
      match FirstInherited(ops, exts[..n], k)
      case Some(v) => Some(v)
      case None =>
        match Lookup(ops, ToPhpString(exts[n]))
        case None => None
        case Some(o) => Lookup(o.config, k)
  }

  /** The parameter p of the last operation extended that has it. */
  function LastInheritedParam(ops: Assoc<Operation>, exts: seq<Value>, p: string): Option<Value> {
    if exts == [] then None
    else
      var n := |exts| - 1;
      match Lookup(ops, ToPhpString(exts[n]))
      case None => LastInheritedParam(ops, exts[..n], p)
      case Some(o) =>
        match Lookup(ParamsOf(o.config), p)
        case Some(v) => Some(v)
        case None => LastInheritedParam(ops, exts[..n], p)
  }

  /** The merged configuration keeps the operation's own keys and takes
      every other key from the first operation extended that has it. */
  lemma {:induction false} ResolveConfig(ops: Assoc<Operation>, name: Value, exts: seq<Value>, op: Assoc<Value>)
    requires Registry(ops) && DistinctKeys(op)
    requires Resolve(ops, name, exts, op).Ok?
    ensures DistinctKeys(Resolve(ops, name, exts, op).value.config)
    ensures forall k :: Lookup(Resolve(ops, name, exts, op).value.config, k)
                     == if HasKey(op, k) then Lookup(op, k) else FirstInherited(ops, exts, k)
  {
    if exts != [] {
      var n := |exts| - 1;
      ResolveConfig(ops, name, exts[..n], op);
      var s := Resolve(ops, name, exts[..n], op).value;
      var o := Lookup(ops, ToPhpString(exts[n])).value;
      LookupRegistry(ops, ToPhpString(exts[n]));
      assert Resolve(ops, name, exts, op).value.config == Merge(o.config, s.config);
    }
  }

  /** The inherited parameters are, key by key, those of the last operation
      extended that has the parameter. */
  lemma {:induction false} ResolveParameters(ops: Assoc<Operation>, name: Value, exts: seq<Value>, op: Assoc<Value>)
    requires Registry(ops)
    requires Resolve(ops, name, exts, op).Ok?
    ensures DistinctKeys(Resolve(ops, name, exts, op).value.parameters)
    ensures forall p :: Lookup(Resolve(ops, name, exts, op).value.parameters, p) == LastInheritedParam(ops, exts, p)
  {
    if exts != [] {
      var n := |exts| - 1;
      ResolveParameters(ops, name, exts[..n], op);
      var s := Resolve(ops, name, exts[..n], op).value;
      var o := Lookup(ops, ToPhpString(exts[n])).value;
      LookupRegistry(ops, ToPhpString(exts[n]));
      var t := ParamsOf(o.config);
      var r := Resolve(ops, name, exts, op).value.parameters;
      if s.parameters == [] {
        assert r == t;
      } else {
        assert r == Merge(s.parameters, t);
      }
    }
  }

  // ---------------------------------------------------------------------
  // What one operation is built into

  /** What the operation itself has for key k, or else what the first
      operation it extends has. */
  function OwnOrInherited(ops: Assoc<Operation>, raw: Assoc<Value>, k: string): Option<Value> {
    if HasKey(raw, k) then Lookup(raw, k) else FirstInherited(ops, ExtendsOf(raw), k)
  }

  /** Naming an operation changes none of the keys the builder reads. */
  lemma NamedFrame(key: string, raw: Assoc<Value>)
    ensures DistinctKeys(raw) ==> DistinctKeys(Named(key, raw))
    ensures Lookup(Named(key, raw), NameKey) == Some(NameOf(key, raw))
    ensures forall k :: k != NameKey ==> Lookup(Named(key, raw), k) == Lookup(raw, k)
    ensures forall k :: k != NameKey ==> (HasKey(Named(key, raw), k) <==> HasKey(raw, k))
    ensures ExtendsOf(Named(key, raw)) == ExtendsOf(raw)
    ensures OwnParameters(Named(key, raw)) == OwnParameters(raw)
    ensures ParamsOf(Named(key, raw)) == ParamsOf(raw)
  {
    KeysDiffer();
    forall k | k != NameKey ensures HasKey(Named(key, raw), k) <==> HasKey(raw, k) {
      assert Lookup(Named(key, raw), k) == Lookup(raw, k);
    }
    assert Get(Named(key, raw), ExtendsKey) == Get(raw, ExtendsKey);
    assert Get(Named(key, raw), ParametersKey) == Get(raw, ParametersKey);
  }

  /** Every key but the parameters, when the operation extends others, is
      the operation's own or else the first extended operation's. */
  lemma MergedKeys(ops: Assoc<Operation>, key: string, raw: Assoc<Value>, k: string)
    requires Registry(ops) && DistinctKeys(raw)
    requires Merged(ops, key, raw).Ok?
    requires k != NameKey && (k != ParametersKey || ExtendsOf(raw) == [])
    ensures DistinctKeys(Merged(ops, key, raw).value)
    ensures Lookup(Merged(ops, key, raw).value, k) == OwnOrInherited(ops, raw, k)
    ensures Lookup(Merged(ops, key, raw).value, NameKey) == Some(NameOf(key, raw))
  {
    NamedFrame(key, raw);
    var op := Named(key, raw);
    if ExtendsOf(raw) != [] {
      ResolveConfig(ops, NameOf(key, raw), ExtendsOf(op), op);
      KeysDiffer();
    }
  }

  /** The parameters of an operation that extends others: its own non-empty
      parameters, and every other parameter from the last extended operation
      that has it. */
  lemma MergedParameters(ops: Assoc<Operation>, key: string, raw: Assoc<Value>, p: string)
    requires Registry(ops) && Keyed(raw)
    requires Merged(ops, key, raw).Ok? && ExtendsOf(raw) != []
    ensures Get(Merged(ops, key, raw).value, ParametersKey).Arr?
    ensures DistinctKeys(ParamsOf(Merged(ops, key, raw).value))
    ensures Lookup(ParamsOf(Merged(ops, key, raw).value), p)
         == if OwnParameters(raw).Some? && HasKey(ParamsOf(raw), p) then Lookup(ParamsOf(raw), p)
            else LastInheritedParam(ops, ExtendsOf(raw), p)
  {
    NamedFrame(key, raw);
    var op := Named(key, raw);
    ResolveParameters(ops, NameOf(key, raw), ExtendsOf(op), op);
    var s := Resolve(ops, NameOf(key, raw), ExtendsOf(op), op).value;
    assert Get(Merged(ops, key, raw).value, ParametersKey) == Arr(Overridden(s.parameters, OwnParameters(op)));
    if OwnParameters(raw).Some? {
      assert OwnParameters(raw).value == ParamsOf(raw);
    }
  }

  /** Naming and merging keep the configuration keyed. */
  lemma MergedKeyed(ops: Assoc<Operation>, key: string, raw: Assoc<Value>)
    requires Registry(ops) && Keyed(raw)
    requires Merged(ops, key, raw).Ok?
    ensures Keyed(Merged(ops, key, raw).value)
  {
    NamedFrame(key, raw);
    if ExtendsOf(raw) != [] {
      MergedKeys(ops, key, raw, ClassKey);
      MergedParameters(ops, key, raw, "");
    }
  }

  /** Settling the class changes no other key. */
  lemma WithClassFrame(op: Assoc<Value>, defaultClass: Value)
    ensures Lookup(WithClass(op, defaultClass), ClassKey)
         == Some(if Lookup(op, ClassKey).Some? && Lookup(op, ClassKey).value != Null
                 then Lookup(op, ClassKey).value else defaultClass)
    ensures forall k :: k != ClassKey ==> Lookup(WithClass(op, defaultClass), k) == Lookup(op, k)
    ensures Keyed(op) ==> Keyed(WithClass(op, defaultClass))
  {
    KeysDiffer();
    assert Get(WithClass(op, defaultClass), ParametersKey) == Get(op, ParametersKey);
  }

  /** The name entry of a built operation is its name. */
  lemma CompileName(ops: Assoc<Operation>, key: string, raw: Assoc<Value>, defaultClass: Value)
    requires Registry(ops) && DistinctKeys(raw)
    requires Compile(ops, key, raw, defaultClass).Ok?
    ensures Lookup(Compile(ops, key, raw, defaultClass).value, NameKey) == Some(NameOf(key, raw))
  {
    MergedKeys(ops, key, raw, ClassKey);
    WithClassFrame(Merged(ops, key, raw).value, defaultClass);
    KeysDiffer();
  }

  /** Every key but the name, the class and (when it extends others) the
      parameters is the operation's own, or else the first extended
      operation's. */
  lemma CompileKeys(ops: Assoc<Operation>, key: string, raw: Assoc<Value>, defaultClass: Value, k: string)
    requires Registry(ops) && DistinctKeys(raw)
    requires Compile(ops, key, raw, defaultClass).Ok?
    requires k != NameKey && k != ClassKey && (k != ParametersKey || ExtendsOf(raw) == [])
    ensures Lookup(Compile(ops, key, raw, defaultClass).value, k) == OwnOrInherited(ops, raw, k)
  {
    MergedKeys(ops, key, raw, k);
    WithClassFrame(Merged(ops, key, raw).value, defaultClass);
  }

  /** The class is the operation's own or the first extended operation's
      when that is set, and the default class otherwise. */
  lemma CompileClass(ops: Assoc<Operation>, key: string, raw: Assoc<Value>, defaultClass: Value)
    requires Registry(ops) && DistinctKeys(raw)
    requires Compile(ops, key, raw, defaultClass).Ok?
    ensures var v := OwnOrInherited(ops, raw, ClassKey);
      Lookup(Compile(ops, key, raw, defaultClass).value, ClassKey)
        == Some(if v.Some? && v.value != Null then v.value else defaultClass)
  {
    KeysDiffer();
    MergedKeys(ops, key, raw, ClassKey);
    WithClassFrame(Merged(ops, key, raw).value, defaultClass);
  }

  /** The parameters of a built operation that extends others. */
  lemma CompileParameters(ops: Assoc<Operation>, key: string, raw: Assoc<Value>, defaultClass: Value, p: string)
    requires Registry(ops) && Keyed(raw)
    requires Compile(ops, key, raw, defaultClass).Ok? && ExtendsOf(raw) != []
    ensures Get(Compile(ops, key, raw, defaultClass).value, ParametersKey).Arr?
    ensures Lookup(ParamsOf(Compile(ops, key, raw, defaultClass).value), p)
         == if OwnParameters(raw).Some? && HasKey(ParamsOf(raw), p) then Lookup(ParamsOf(raw), p)
            else LastInheritedParam(ops, ExtendsOf(raw), p)
  {
    KeysDiffer();
    MergedParameters(ops, key, raw, p);
    WithClassFrame(Merged(ops, key, raw).value, defaultClass);
    assert Get(Compile(ops, key, raw, defaultClass).value, ParametersKey) == Get(Merged(ops, key, raw).value, ParametersKey);
  }

  /** An operation fails to build exactly when one it extends was not built
      before it, with the message naming the first one missing. */
  lemma CompileFails(ops: Assoc<Operation>, key: string, raw: Assoc<Value>, defaultClass: Value)
    ensures Compile(ops, key, raw, defaultClass).Err? <==> !AllBuilt(ops, ExtendsOf(raw))
    ensures var exts := ExtendsOf(raw);
      Compile(ops, key, raw, defaultClass).Err? ==>
        exists i :: FirstMissing(ops, exts, i)
          && Compile(ops, key, raw, defaultClass).error == MissingMessage(NameOf(key, raw), exts[i])
  {
    NamedFrame(key, raw);
    var op := Named(key, raw);
    ResolveFails(ops, NameOf(key, raw), ExtendsOf(op), op);
    if Compile(ops, key, raw, defaultClass).Err? {
      ResolveFailure(ops, NameOf(key, raw), ExtendsOf(op), op);
    }
  }

  /** A built operation is keyed when it is built from keyed configurations. */
  lemma CompileKeyed(ops: Assoc<Operation>, key: string, raw: Assoc<Value>, defaultClass: Value)
    requires Registry(ops) && Keyed(raw)
    requires Compile(ops, key, raw, defaultClass).Ok?
    ensures Keyed(Compile(ops, key, raw, defaultClass).value)
  {
    MergedKeyed(ops, key, raw);
    WithClassFrame(Merged(ops, key, raw).value, defaultClass);
  }

  // ---------------------------------------------------------------------
  // What the whole build gives

  /** Some entry before position i has the name k. */
  predicate DefinedBefore(entries: Assoc<Assoc<Value>>, i: nat, k: string) {
    exists h :: 0 <= h < i && h < |entries| && OpKey(entries[h]) == k
  }

  /** Every operation entry i extends was defined by an entry before it. */
  predicate RefersBack(entries: Assoc<Assoc<Value>>, i: nat)
    requires i < |entries|
  {
    var exts := ExtendsOf(entries[i].1);
    forall j :: 0 <= j < |exts| ==> DefinedBefore(entries, i, ToPhpString(exts[j]))
  }

  predicate AllKeyed(entries: Assoc<Assoc<Value>>) {
    forall i :: 0 <= i < |entries| ==> Keyed(entries[i].1)
  }

  /** One more entry builds when the others built and it builds against them. */
  lemma BuiltStep(entries: Assoc<Assoc<Value>>, defaultClass: Value)
    requires entries != []
    ensures var n := |entries| - 1;
      Built(entries, defaultClass).Ok? <==>
        Built(entries[..n], defaultClass).Ok?
        && Compile(Built(entries[..n], defaultClass).value, entries[n].0, entries[n].1, defaultClass).Ok?
  {
  }

  /** The built operations are stored under the names of the entries. */
  lemma {:induction false} BuiltNames(entries: Assoc<Assoc<Value>>, defaultClass: Value)
    requires Built(entries, defaultClass).Ok?
    ensures DistinctKeys(Built(entries, defaultClass).value)
    ensures forall k :: HasKey(Built(entries, defaultClass).value, k) <==> DefinedBefore(entries, |entries|, k)
  {
    if entries != [] {
      var n := |entries| - 1;
      var p := entries[..n];
      BuiltStep(entries, defaultClass);
      BuiltNames(p, defaultClass);
      var ops := Built(p, defaultClass).value;
      var r := Built(entries, defaultClass).value;
      assert r == Put(ops, OpKey(entries[n]), Operation(Compile(ops, entries[n].0, entries[n].1, defaultClass).value));
      forall k ensures HasKey(r, k) <==> DefinedBefore(entries, |entries|, k) {
        DefinedBeforePrefix(entries, n, k);
        if k != OpKey(entries[n]) {
          assert Lookup(r, k) == Lookup(ops, k);
        } else {
          assert Lookup(r, k).Some?;
        }
      }
    }
  }

  /** Names defined before position i are those defined in the first i entries. */
  lemma DefinedBeforePrefix(entries: Assoc<Assoc<Value>>, i: nat, k: string)
    requires i < |entries|
    ensures DefinedBefore(entries[..i], i, k) <==> DefinedBefore(entries, i, k)
    ensures DefinedBefore(entries, i + 1, k) <==> DefinedBefore(entries, i, k) || OpKey(entries[i]) == k
  {
    if DefinedBefore(entries, i, k) {
      var h :| 0 <= h < i && h < |entries| && OpKey(entries[h]) == k;
      assert entries[..i][h] == entries[h];
    }
    if DefinedBefore(entries[..i], i, k) {
      var h :| 0 <= h < i && h < |entries[..i]| && OpKey(entries[..i][h]) == k;
      assert entries[..i][h] == entries[h];
    }
  }

  /** The extends list is all built exactly when each name in it is defined before. */
  lemma AllBuiltNames(entries: Assoc<Assoc<Value>>, defaultClass: Value, i: nat)
    requires i < |entries|
    requires Built(entries[..i], defaultClass).Ok?
    ensures AllBuilt(Built(entries[..i], defaultClass).value, ExtendsOf(entries[i].1)) <==> RefersBack(entries, i)
  {
    var p := entries[..i];
    BuiltNames(p, defaultClass);
    assert |p| == i;
    var exts := ExtendsOf(entries[i].1);
    forall j | 0 <= j < |exts|
      ensures !Missing(Built(p, defaultClass).value, exts[j]) <==> DefinedBefore(entries, i, ToPhpString(exts[j]))
    {
      DefinedBeforePrefix(entries, i, ToPhpString(exts[j]));
    }
  }

  /** Every entry refers back. */
  predicate AllReferBack(entries: Assoc<Assoc<Value>>) {
    forall i :: 0 <= i < |entries| ==> RefersBack(entries, i)
  }

  /** The build succeeds exactly when every operation extends only operations
      defined before it. */
  lemma {:induction false} BuiltRefersBack(entries: Assoc<Assoc<Value>>, defaultClass: Value)
    ensures Built(entries, defaultClass).Ok? <==> AllReferBack(entries)
  {
    if entries != [] {
      var n := |entries| - 1;
      BuiltRefersBack(entries[..n], defaultClass);
      BuiltStep(entries, defaultClass);
      AllReferBackSnoc(entries);
      if Built(entries[..n], defaultClass).Ok? {
        LastRefersBack(entries, defaultClass, Built(entries[..n], defaultClass).value);
      }
    }
  }

  lemma AllReferBackSnoc(entries: Assoc<Assoc<Value>>)
    requires entries != []
    ensures AllReferBack(entries) <==> AllReferBack(entries[..|entries| - 1]) && RefersBack(entries, |entries| - 1)
  {
    var n := |entries| - 1;
    forall i | 0 <= i < n ensures RefersBack(entries[..n], i) <==> RefersBack(entries, i) {
      RefersBackPrefix(entries, n, i);
    }
  }

  /** The last entry builds against the others exactly when it refers back. */
  lemma LastRefersBack(entries: Assoc<Assoc<Value>>, defaultClass: Value, ops: Assoc<Operation>)
    requires entries != [] && Built(entries[..|entries| - 1], defaultClass) == Ok(ops)
    ensures Compile(ops, entries[|entries| - 1].0, entries[|entries| - 1].1, defaultClass).Ok?
       <==> RefersBack(entries, |entries| - 1)
  {
    var n := |entries| - 1;
    AllBuiltNames(entries, defaultClass, n);
    CompileFails(ops, entries[n].0, entries[n].1, defaultClass);
  }

  lemma RefersBackPrefix(entries: Assoc<Assoc<Value>>, n: nat, i: nat)
    requires i < n <= |entries|
    ensures RefersBack(entries[..n], i) <==> RefersBack(entries, i)
  {
    assert entries[..n][i] == entries[i];
    var exts := ExtendsOf(entries[i].1);
    forall j | 0 <= j < |exts|
      ensures DefinedBefore(entries[..n], i, ToPhpString(exts[j])) <==> DefinedBefore(entries, i, ToPhpString(exts[j]))
    {
      var k := ToPhpString(exts[j]);
      if DefinedBefore(entries, i, k) {
        var h :| 0 <= h < i && h < |entries| && OpKey(entries[h]) == k;
        assert entries[..n][h] == entries[h];
      }
      if DefinedBefore(entries[..n], i, k) {
        var h :| 0 <= h < i && h < |entries[..n]| && OpKey(entries[..n][h]) == k;
        assert entries[..n][h] == entries[h];
      }
    }
  }

  /** The operation stored under a name is the one built from the last
      entry with that name, against the operations built before it. */
  lemma BuiltLast(entries: Assoc<Assoc<Value>>, defaultClass: Value, h: nat)
    requires Built(entries, defaultClass).Ok?
    requires h < |entries|
    requires forall j :: h < j < |entries| ==> OpKey(entries[j]) != OpKey(entries[h])
    ensures Built(entries[..h], defaultClass).Ok?
    ensures Compile(Built(entries[..h], defaultClass).value, entries[h].0, entries[h].1, defaultClass).Ok?
    ensures Lookup(Built(entries, defaultClass).value, OpKey(entries[h]))
         == Some(Operation(Compile(Built(entries[..h], defaultClass).value, entries[h].0, entries[h].1, defaultClass).value))
  {
    BuiltLastKept(entries, defaultClass, h);
    BuiltPrefixEnd(entries, defaultClass, h);
  }

  /** The entries after the last one with a name leave that name as the
      last one left it. */
  lemma BuiltLastKept(entries: Assoc<Assoc<Value>>, defaultClass: Value, h: nat)
    requires Built(entries, defaultClass).Ok?
    requires h < |entries|
    requires forall j :: h < j < |entries| ==> OpKey(entries[j]) != OpKey(entries[h])
    ensures Built(entries[..h + 1], defaultClass).Ok?
    ensures Lookup(Built(entries, defaultClass).value, OpKey(entries[h]))
         == Lookup(Built(entries[..h + 1], defaultClass).value, OpKey(entries[h]))
  {
    var k := OpKey(entries[h]);
    var chain := BuiltChain(entries, defaultClass);
    forall i | h + 1 <= i < |entries|
      ensures StepKeeps(chain, i, k)
    {
      ChainStep(entries, defaultClass, i, k);
    }
    assert chain[|entries|] == Built(entries, defaultClass) by {
      assert entries[..|entries|] == entries;
    }
    KeptAlong(chain, k, h + 1, |entries|);
  }

  /** The builds of the successive prefixes of the entries. */
  function BuiltChain(entries: Assoc<Assoc<Value>>, defaultClass: Value): (chain: seq<Result<Assoc<Operation>, string>>)
    ensures |chain| == |entries| + 1
    ensures forall i :: 0 <= i <= |entries| ==> chain[i] == Built(entries[..i], defaultClass)
  {
    seq(|entries| + 1, i requires 0 <= i <= |entries| => Built(entries[..i], defaultClass))
  }

  /** An entry under another name leaves `k` alone. */
  lemma ChainStep(entries: Assoc<Assoc<Value>>, defaultClass: Value, i: nat, k: string)
    requires i < |entries|
    requires k != OpKey(entries[i])
    ensures StepKeeps(BuiltChain(entries, defaultClass), i, k)
  {
    if Built(entries[..i + 1], defaultClass).Ok? {
      BuiltPrefixKeeps(entries, defaultClass, i, k);
    }
  }

  /** The step from the `i`-th build of a chain to the next leaves `k` alone. */
  predicate StepKeeps(chain: seq<Result<Assoc<Operation>, string>>, i: nat, k: string)
    requires i + 1 < |chain|
  {
    chain[i + 1].Ok? ==> chain[i].Ok? && Lookup(chain[i + 1].value, k) == Lookup(chain[i].value, k)
  }

  /** A name that every step along a chain of builds leaves alone keeps
      the value it had at the start of the chain. */
  lemma {:induction false} KeptAlong(chain: seq<Result<Assoc<Operation>, string>>, k: string, lo: nat, hi: nat)
    requires lo <= hi < |chain|
    requires forall i :: lo <= i < hi ==> StepKeeps(chain, i, k)
    requires chain[hi].Ok?
    ensures chain[lo].Ok? && Lookup(chain[hi].value, k) == Lookup(chain[lo].value, k)
    decreases hi
  {
    if lo < hi {
      assert StepKeeps(chain, hi - 1, k);
      KeptAlong(chain, k, lo, hi - 1);
    }
  }

  /** The entry at `i`, added after the first `i`, is stored, built, under its name. */
  lemma BuiltPrefixEnd(entries: Assoc<Assoc<Value>>, defaultClass: Value, i: nat)
    requires i < |entries|
    requires Built(entries[..i + 1], defaultClass).Ok?
    ensures Built(entries[..i], defaultClass).Ok?
    ensures Compile(Built(entries[..i], defaultClass).value, entries[i].0, entries[i].1, defaultClass).Ok?
    ensures Lookup(Built(entries[..i + 1], defaultClass).value, OpKey(entries[i]))
         == Some(Operation(Compile(Built(entries[..i], defaultClass).value, entries[i].0, entries[i].1, defaultClass).value))
  {
    PrefixSnoc(entries, i);
    BuiltSnocEnd(entries[..i], entries[i], defaultClass);
  }

  /** The entry at `i`, added after the first `i`, leaves every other name as it was. */
  lemma BuiltPrefixKeeps(entries: Assoc<Assoc<Value>>, defaultClass: Value, i: nat, k: string)
    requires i < |entries|
    requires Built(entries[..i + 1], defaultClass).Ok?
    requires k != OpKey(entries[i])
    ensures Built(entries[..i], defaultClass).Ok?
    ensures Lookup(Built(entries[..i + 1], defaultClass).value, k) == Lookup(Built(entries[..i], defaultClass).value, k)
  {
    PrefixSnoc(entries, i);
    BuiltSnocKeeps(entries[..i], entries[i], defaultClass, k);
  }

  lemma PrefixSnoc<T>(s: seq<T>, i: nat)
    requires i < |s|
    ensures s[..i + 1] == s[..i] + [s[i]]
  {
  }

  /** An entry added last is stored, built, under its name. */
  lemma BuiltSnocEnd(s: Assoc<Assoc<Value>>, x: (string, Assoc<Value>), defaultClass: Value)
    requires Built(s + [x], defaultClass).Ok?
    ensures Built(s, defaultClass).Ok?
    ensures Compile(Built(s, defaultClass).value, x.0, x.1, defaultClass).Ok?
    ensures Lookup(Built(s + [x], defaultClass).value, OpKey(x))
         == Some(Operation(Compile(Built(s, defaultClass).value, x.0, x.1, defaultClass).value))
  {
    assert (s + [x])[..|s|] == s;
  }

  /** An entry added last leaves every other name as it was. */
  lemma BuiltSnocKeeps(s: Assoc<Assoc<Value>>, x: (string, Assoc<Value>), defaultClass: Value, k: string)
    requires Built(s + [x], defaultClass).Ok?
    requires k != OpKey(x)
    ensures Built(s, defaultClass).Ok?
    ensures Lookup(Built(s + [x], defaultClass).value, k) == Lookup(Built(s, defaultClass).value, k)
  {
    assert (s + [x])[..|s|] == s;
  }

  /** Keyed configurations build a registry of keyed operations. */
  lemma {:induction false} BuiltRegistry(entries: Assoc<Assoc<Value>>, defaultClass: Value)
    requires AllKeyed(entries)
    requires Built(entries, defaultClass).Ok?
    ensures Registry(Built(entries, defaultClass).value)
  {
    if entries != [] {
      var n := |entries| - 1;
      BuiltStep(entries, defaultClass);
      AllKeyedPrefix(entries, n);
      BuiltRegistry(entries[..n], defaultClass);
      RegistryStep(entries, defaultClass);
    }
  }

  lemma AllKeyedPrefix(entries: Assoc<Assoc<Value>>, n: nat)
    requires AllKeyed(entries) && n <= |entries|
    ensures AllKeyed(entries[..n])
  {
    assert forall i :: 0 <= i < n ==> entries[..n][i] == entries[i];
  }

  lemma RegistryStep(entries: Assoc<Assoc<Value>>, defaultClass: Value)
    requires entries != [] && Keyed(entries[|entries| - 1].1)
    requires Built(entries, defaultClass).Ok? && Built(entries[..|entries| - 1], defaultClass).Ok?
    requires Registry(Built(entries[..|entries| - 1], defaultClass).value)
    ensures Registry(Built(entries, defaultClass).value)
  {
    var n := |entries| - 1;
    var ops := Built(entries[..n], defaultClass).value;
    CompileKeyed(ops, entries[n].0, entries[n].1, defaultClass);
    PutRegistry(ops, OpKey(entries[n]), Operation(Compile(ops, entries[n].0, entries[n].1, defaultClass).value));
  }
}
