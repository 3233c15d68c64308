/** The published output keys of a sync step kind, normalised when a definition is saved. */
module PublishedOutputs {
  import opened JsText

  // ----- the default string order -----

  /** `a` comes before `b` in the order of `sort()`. */
  predicate Less(a: string, b: string)
  {
    b != "" && (a == "" || a[0] < b[0] || (a[0] == b[0] && Less(a[1..], b[1..])))
  }

  lemma {:induction false} LessIsTransitive(a: string, b: string, c: string)
    requires Less(a, b) && Less(b, c)
    ensures Less(a, c)
    decreases |a|
  {
    if a != "" && a[0] == b[0] == c[0] {
      LessIsTransitive(a[1..], b[1..], c[1..]);
    }
  }

  lemma {:induction false} LessIsTotal(a: string, b: string)
    ensures Less(a, b) || Less(b, a) || a == b
    ensures !(Less(a, b) && Less(b, a)) && (a == b ==> !Less(a, b))
    decreases |a|
  {
    if a != "" && b != "" && a[0] == b[0] {
      LessIsTotal(a[1..], b[1..]);
      assert a == [a[0]] + a[1..] && b == [b[0]] + b[1..];
    }
  }

  ghost predicate StrictlySorted(keys: seq<string>)
  {
    forall i, j :: 0 <= i < j < |keys| ==> Less(keys[i], keys[j])
  }

  function InsertKey(key: string, sorted: seq<string>): (r: seq<string>)
    ensures forall k :: k in r <==> k == key || k in sorted
  {
    if sorted == [] || Less(key, sorted[0]) then [key] + sorted
    else if key == sorted[0] then sorted
    else
      assert sorted == [sorted[0]] + sorted[1..];
      [sorted[0]] + InsertKey(key, sorted[1..])
  }

  /** `[...new Set(keys)].sort()` */
  function SortUnique(keys: seq<string>): (r: seq<string>)
    ensures forall k :: k in r <==> k in keys
  {
    if keys == [] then []
    else
      assert keys == [keys[0]] + keys[1..];
      InsertKey(keys[0], SortUnique(keys[1..]))
  }

  lemma {:induction false} InsertKeepsSorted(key: string, sorted: seq<string>)
    requires StrictlySorted(sorted)
    ensures StrictlySorted(InsertKey(key, sorted))
  {
    var r := InsertKey(key, sorted);
    if sorted != [] {
      LessIsTotal(key, sorted[0]);
      if Less(key, sorted[0]) {
        forall i | 0 <= i < |sorted| ensures Less(key, sorted[i]) {
          if i > 0 { LessIsTransitive(key, sorted[0], sorted[i]); }
        }
      } else if key != sorted[0] {
        InsertKeepsSorted(key, sorted[1..]);
        forall k | k in InsertKey(key, sorted[1..]) ensures Less(sorted[0], k) {
          if k != key {
            var i :| 0 <= i < |sorted[1..]| && sorted[1..][i] == k;
            assert sorted[i + 1] == k;
          }
        }
      }
    }
  }

  lemma {:induction false} SortUniqueSorts(keys: seq<string>)
    ensures StrictlySorted(SortUnique(keys))
  {
    if keys != [] {
      SortUniqueSorts(keys[1..]);
      InsertKeepsSorted(keys[0], SortUnique(keys[1..]));
    }
  }

  /** A set has one strictly sorted listing. */
  lemma {:induction false} SortedListingIsUnique(a: seq<string>, b: seq<string>)
    requires StrictlySorted(a) && StrictlySorted(b)
    requires forall k :: k in a <==> k in b
    ensures a == b
  {
    if a == [] {
      SameMembersEmpty(b, a);
    } else {
      assert a[0] in b && b != [] && b[0] in a;
      FirstIsLeast(a, b[0]);
      FirstIsLeast(b, a[0]);
      LessIsTotal(a[0], b[0]);
      assert a == [a[0]] + a[1..] && b == [b[0]] + b[1..];
      FirstIsOnce(a);
      FirstIsOnce(b);
      forall k ensures k in a[1..] <==> k in b[1..] {
        assert k in a <==> k == a[0] || k in a[1..];
        assert k in b <==> k == b[0] || k in b[1..];
      }
      SortedListingIsUnique(a[1..], b[1..]);
    }
  }

  lemma SameMembersEmpty(b: seq<string>, a: seq<string>)
    requires a == [] && forall k :: k in a <==> k in b
    ensures b == []
  {
    var k := if b != [] then b[0] else "";
    assert b != [] ==> k in b;
  }

  lemma FirstIsLeast(a: seq<string>, k: string)
    requires StrictlySorted(a) && k in a
    ensures k == a[0] || Less(a[0], k)
  {
  }

  lemma FirstIsOnce(a: seq<string>)
    requires StrictlySorted(a) && a != []
    ensures a[0] !in a[1..]
  {
    LessIsTotal(a[0], a[0]);
  }

  // ----- the definition -----

  /** A handler with the names of its input slots; a procedure may leave its parameters out. */
  datatype Handler =
    | Procedure(parameters: Option<seq<string>>)
    | HttpRequest(body: seq<string>)
    | CustomSql(inputs: seq<string>)
    | CustomShellScript(inputs: seq<string>)
    | OtherHandler

  datatype Kind = Kind(handler: Handler, publishedOutputs: Option<seq<string>>)

  const DEFAULT_CUSTOM_INPUTS := ["entityId", "id", "stepId"]

  function Select(keys: seq<string>, keep: string -> bool): (r: seq<string>)
    ensures forall k :: k in r <==> k in keys && keep(k)
  {
    FilterMembers(keys, keep);
    Filter(keys, keep)
  }

  /** `normalizePublishedOutputKeys`: trimmed, without empty keys, each once, sorted. */
  function NormalizeKeys(keys: seq<string>): seq<string>
  {
    SortUnique(Select(Map(Trim, keys), k => k != ""))
  }

  /** `handlerInputOutputKeys` */
  function InputKeys(handler: Handler): seq<string>
  {
    match handler
    case Procedure(parameters) => NormalizeKeys(if parameters.Some? then parameters.value else [])
    case HttpRequest(body) => NormalizeKeys(body)
    case CustomSql(inputs) => NormalizeKeys(if inputs == [] then DEFAULT_CUSTOM_INPUTS else inputs)
    case CustomShellScript(inputs) => NormalizeKeys(if inputs == [] then DEFAULT_CUSTOM_INPUTS else inputs)
    case OtherHandler => []
  }

  /** `/^id\d*$/i` */
  predicate IdStyle(key: string)
  {
    |key| >= 2 && key[0] in "iI" && key[1] in "dD" && forall i :: 2 <= i < |key| ==> '0' <= key[i] <= '9'
  }

  predicate Stale(key: string, columns: seq<string>, inputs: seq<string>)
  {
    (exists input :: input in inputs && input != key && key <= input) ||
    (exists other :: other in columns && other != key && key <= other) ||
    (!(exists input :: input in inputs && IdStyle(input)) && IdStyle(key)) ||
    (|key| <= 1 && key !in inputs)
  }

  /** `pruneStaleResultColumnKeys` */
  function PruneStale(columns: seq<string>, inputs: seq<string>): seq<string>
  {
    Select(columns, key => !Stale(key, columns, inputs))
  }

  function Declared(kind: Kind): seq<string>
  {
    NormalizeKeys(if kind.publishedOutputs.Some? then kind.publishedOutputs.value else [])
  }

  /** `computePublishedOutputsForKind` */
  function ComputeOutputs(kind: Kind): seq<string>
  {
    var inputs := InputKeys(kind.handler);
    SortUnique(inputs + PruneStale(Select(Declared(kind), key => key !in inputs), inputs))
  }

  /** `normalizeKindDefinition` */
  function NormalizeKind(kind: Kind): Kind
  {
    var outputs := ComputeOutputs(kind);
    if outputs != [] then kind.(publishedOutputs := Some(outputs)) else kind
  }

  // ----- what is published -----

  /** A key as normalising leaves it. */
  predicate Clean(key: string)
  {
    key != "" && Trim(key) == key
  }

  lemma NormalizedKeysAreClean(keys: seq<string>)
    ensures forall k :: k in NormalizeKeys(keys) ==> Clean(k)
  {
    forall k | k in NormalizeKeys(keys) ensures Clean(k) {
      assert k in Map(Trim, keys);
      var i :| 0 <= i < |keys| && Map(Trim, keys)[i] == k;
      TrimIsIdempotent(keys[i]);
    }
  }

  lemma CleanKeysStay(keys: seq<string>)
    requires forall k :: k in keys ==> Clean(k)
    ensures forall k :: k in NormalizeKeys(keys) <==> k in keys
  {
    forall k ensures k in Map(Trim, keys) <==> k in keys {
      if k in keys {
        var i :| 0 <= i < |keys| && keys[i] == k;
        assert Map(Trim, keys)[i] == Trim(keys[i]) == k;
      }
      if k in Map(Trim, keys) {
        var i :| 0 <= i < |keys| && Map(Trim, keys)[i] == k;
        assert keys[i] in keys && Trim(keys[i]) == keys[i];
      }
    }
  }

  /** The result columns of a kind: what it publishes beyond its inputs. */
  function ResultColumns(kind: Kind): seq<string>
  {
    var inputs := InputKeys(kind.handler);
    PruneStale(Select(Declared(kind), key => key !in inputs), inputs)
  }

  lemma InputsAreClean(handler: Handler)
    ensures forall k :: k in InputKeys(handler) ==> Clean(k)
  {
    match handler
    case Procedure(parameters) => NormalizedKeysAreClean(if parameters.Some? then parameters.value else []);
    case HttpRequest(body) => NormalizedKeysAreClean(body);
    case CustomSql(inputs) => NormalizedKeysAreClean(if inputs == [] then DEFAULT_CUSTOM_INPUTS else inputs);
    case CustomShellScript(inputs) => NormalizedKeysAreClean(if inputs == [] then DEFAULT_CUSTOM_INPUTS else inputs);
    case OtherHandler =>
  }

  lemma NormalizedMembers(names: seq<string>)
    ensures forall k :: k in NormalizeKeys(names) <==> k != "" && exists i :: 0 <= i < |names| && Trim(names[i]) == k
  {
    forall k ensures k in NormalizeKeys(names) <==> k != "" && exists i :: 0 <= i < |names| && Trim(names[i]) == k {
      var trimmed := Map(Trim, names);
      assert k in trimmed <==> exists i :: 0 <= i < |names| && Trim(names[i]) == k by {
        if k in trimmed {
          var i :| 0 <= i < |trimmed| && trimmed[i] == k;
          assert Trim(names[i]) == k;
        }
        if i :| 0 <= i < |names| && Trim(names[i]) == k {
          assert trimmed[i] == k;
        }
      }
    }
  }

  /** The trimmed slot names of a handler are its input keys: those it declares, or for a custom
      handler that declares none the default ones. */
  ghost predicate EchoesSlots(handler: Handler, names: seq<string>)
  {
    forall k :: k in InputKeys(handler) <==> k != "" && exists i :: 0 <= i < |names| && Trim(names[i]) == k
  }

  lemma SlotsAreInputs(handler: Handler)
    ensures match handler
      case Procedure(Some(names)) => EchoesSlots(handler, names)
      case Procedure(None) => InputKeys(handler) == []
      case HttpRequest(names) => EchoesSlots(handler, names)
      case CustomSql(names) => EchoesSlots(handler, if names == [] then ["entityId", "id", "stepId"] else names)
      case CustomShellScript(names) => EchoesSlots(handler, if names == [] then ["entityId", "id", "stepId"] else names)
      case OtherHandler => InputKeys(handler) == []
  {
    match handler
    case Procedure(names) => NormalizedMembers(if names.Some? then names.value else []);
    case HttpRequest(names) => NormalizedMembers(names);
    case CustomSql(names) => NormalizedMembers(if names == [] then ["entityId", "id", "stepId"] else names);
    case CustomShellScript(names) => NormalizedMembers(if names == [] then ["entityId", "id", "stepId"] else names);
    case OtherHandler =>
  }

  /** Which keys are of id style: "id" in any case, followed by digits only. */
  lemma IdStyleKeys(digits: string, i: char, d: char)
    requires i == 'i' || i == 'I'
    requires d == 'd' || d == 'D'
    ensures IdStyle([i, d] + digits) <==> forall c :: c in digits ==> '0' <= c <= '9'
  {
    var key := [i, d] + digits;
    assert key[2..] == digits;
    assert forall j :: 2 <= j < |key| ==> key[j] == digits[j - 2];
    if forall c :: c in digits ==> '0' <= c <= '9' {
      forall j | 2 <= j < |key| ensures '0' <= key[j] <= '9' {
        assert digits[j - 2] in digits;
      }
    }
    if IdStyle(key) {
      forall c | c in digits ensures '0' <= c <= '9' {
        var j :| 0 <= j < |digits| && digits[j] == c;
        assert key[j + 2] == c;
      }
    }
  }

  /** The published keys are strictly sorted, include every input key, and nothing but input
      keys and declared ones; the keys that are not inputs are pairwise prefix-incomparable,
      none is a proper prefix of an input key, and each has at least two characters. */
  lemma OutputsAreNormal(kind: Kind)
    ensures var outputs, inputs := ComputeOutputs(kind), InputKeys(kind.handler);
      StrictlySorted(outputs) &&
      (forall k :: k in inputs ==> k in outputs) &&
      (forall k :: k in outputs && k !in inputs ==>
        k in Declared(kind) && |k| >= 2 && forall input :: input in inputs ==> !(k <= input)) &&
      (forall k :: k in outputs && k !in inputs && IdStyle(k) ==> exists input :: input in inputs && IdStyle(input)) &&
      (forall k, l :: k in outputs && l in outputs && k !in inputs && l !in inputs && k != l ==> !(k <= l))
  {
    var inputs := InputKeys(kind.handler);
    var columns := Select(Declared(kind), key => key !in inputs);
    SortUniqueSorts(inputs + ResultColumns(kind));
    forall k, l | k in ResultColumns(kind) && l in ResultColumns(kind) && k != l ensures !(k <= l) {
      assert l in columns && !Stale(k, columns, inputs);
    }
  }

  /** The length of the longest key. */
  function Longest(keys: seq<string>): (n: nat)
    ensures forall k :: k in keys ==> |k| <= n
  {
    if keys == [] then 0
    else
      var n := Longest(keys[1..]);
      assert keys == [keys[0]] + keys[1..];
      if n < |keys[0]| then |keys[0]| else n
  }

  /** A key that some published key is or extends. */
  ghost predicate Covered(kind: Kind, key: string)
  {
    exists k :: k in ComputeOutputs(kind) && key <= k
  }

  /** A declared key that pruning drops for a reason other than the longer key it is part of. */
  predicate TooBare(kind: Kind, key: string)
  {
    |key| <= 1 || (IdStyle(key) && !exists input :: input in InputKeys(kind.handler) && IdStyle(input))
  }

  /** Every other key that is dropped is a proper prefix of another key. */
  lemma DroppedForALongerKey(kind: Kind, key: string) returns (longer: string)
    requires key in Declared(kind) && key !in ComputeOutputs(kind) && !TooBare(kind, key)
    ensures key <= longer && |key| < |longer| && !TooBare(kind, longer)
    ensures longer in InputKeys(kind.handler) || longer in Declared(kind)
  {
    var inputs := InputKeys(kind.handler);
    var columns := Select(Declared(kind), k => k !in inputs);
    if Stale(key, columns, inputs) {
      if input :| input in inputs && input != key && key <= input {
        longer := input;
      } else {
        var other :| other in columns && other != key && key <= other;
        longer := other;
      }
      LongerKey(key, longer);
    } else {
      PublishedUnlessStale(kind, key);
      assert false;
    }
  }

  /** Pruning loses nothing but what a longer key covers: every declared key is published or a
      proper prefix of a published one, except keys of one character, and the keys of id style
      when no input has that style. */
  lemma {:induction false} DeclaredKeysAreCovered(kind: Kind, key: string)
    requires key in Declared(kind) && !TooBare(kind, key)
    ensures Covered(kind, key)
    decreases Longest(Declared(kind)) - |key|
  {
    if key !in ComputeOutputs(kind) {
      var longer := DroppedForALongerKey(kind, key);
      if longer in InputKeys(kind.handler) {
        PublishedInput(kind, longer);
      } else {
        DeclaredKeysAreCovered(kind, longer);
        var k :| k in ComputeOutputs(kind) && longer <= k;
        assert key <= k;
      }
    }
  }

  lemma PublishedInput(kind: Kind, input: string)
    requires input in InputKeys(kind.handler)
    ensures input in ComputeOutputs(kind)
  {
  }

  lemma PublishedUnlessStale(kind: Kind, key: string)
    requires key in Declared(kind)
    requires var inputs := InputKeys(kind.handler);
      key in inputs || !Stale(key, Select(Declared(kind), k => k !in inputs), inputs)
    ensures key in ComputeOutputs(kind)
  {
  }

  /** A proper extension is longer, and of id style only if what it extends is. */
  lemma LongerKey(key: string, longer: string)
    requires key <= longer && key != longer && |key| >= 2
    ensures |key| < |longer|
    ensures IdStyle(longer) ==> IdStyle(key)
  {
    assert key == longer[..|key|];
    assert forall i :: 0 <= i < |key| ==> key[i] == longer[i];
  }

  /** Recomputing on what was computed changes nothing. */
  lemma ComputeIsIdempotent(kind: Kind)
    ensures ComputeOutputs(kind.(publishedOutputs := Some(ComputeOutputs(kind)))) == ComputeOutputs(kind)
  {
    var outputs, inputs := ComputeOutputs(kind), InputKeys(kind.handler);
    var again := kind.(publishedOutputs := Some(outputs));
    InputsAreClean(kind.handler);
    NormalizedKeysAreClean(if kind.publishedOutputs.Some? then kind.publishedOutputs.value else []);
    CleanKeysStay(outputs);
    var columns := Select(Declared(kind), key => key !in inputs);
    var columnsAgain := Select(Declared(again), key => key !in inputs);
    assert forall k :: k in columnsAgain <==> k in ResultColumns(kind);
    forall k | k in columnsAgain ensures !Stale(k, columnsAgain, inputs) {
      assert !Stale(k, columns, inputs);
    }
    SortUniqueSorts(inputs + ResultColumns(kind));
    SortUniqueSorts(inputs + ResultColumns(again));
    SortedListingIsUnique(outputs, ComputeOutputs(again));
  }

  /** So normalising a definition a second time changes nothing, even when nothing is published
      and the declared keys are left as they were. */
  lemma NormalizingOnceIsEnough(kind: Kind)
    ensures NormalizeKind(NormalizeKind(kind)) == NormalizeKind(kind)
  {
    ComputeIsIdempotent(kind);
  }

  /** What is saved: the computed keys, or the definition as it was if there are none. */
  lemma NormalizedPublishes(kind: Kind)
    ensures ComputeOutputs(kind) != [] ==> NormalizeKind(kind).publishedOutputs == Some(ComputeOutputs(kind))
    ensures ComputeOutputs(kind) == [] ==> NormalizeKind(kind) == kind
    ensures NormalizeKind(kind).handler == kind.handler
  {
  }
}
