/** Saving and loading the environment variables of a workflow, secrets encrypted at rest and
    masked towards the client (models/workflow.py, factories/variable_factory.py). */
module EnvironmentVariables {
  import opened Results

  const HIDDEN_VALUE := "[__HIDDEN__]"
  const ENVIRONMENT_NODE := "env"

  /** A value as JSON carries it; an object or array by its text. */
  datatype Value = Text(text: string) | Integer(int) | Float(real) | Object(json: string) | Array(json: string)

  datatype Kind = StringKind | SecretKind | NumberKind | ObjectKind | ArrayKind

  datatype Variable = Variable(
    kind: Kind, id: string, name: string, description: string, selector: seq<string>, value: Value)

  datatype VariableError = MissingName | InvalidValue | TooLarge | MissingId | UndecryptableSecret

  /** Token encryption with the randomness it draws, the size of a value and its limit. */
  datatype Context = Context(
    encrypt: (nat, string) -> string, decrypt: string -> Option<string>, size: Value -> nat, limit: nat)
  {
    ghost predicate Lawful() {
      forall r: nat, v: string :: decrypt(encrypt(r, v)) == Some(v)
    }

    predicate Matches(kind: Kind, value: Value) {
      match kind
      case StringKind | SecretKind => value.Text?
      case NumberKind => value.Integer? || value.Float?
      case ObjectKind => value.Object?
      case ArrayKind => value.Array?
    }

    /** What building a variable from its stored form needs. */
    predicate Builds(v: Variable) {
      v.name != "" && Matches(v.kind, v.value) && size(v.value) <= limit
    }

    /** A stored variable without a selector gets one from its name. */
    function Build(v: Variable): Result<Variable, VariableError> {
      if v.name == "" then Err(MissingName)
      else if !Matches(v.kind, v.value) then Err(InvalidValue)
      else if size(v.value) > limit then Err(TooLarge)
      else Ok(WithSelector(v))
    }

    function Load(v: Variable): Result<Variable, VariableError> {
      var built :- Build(v);
      if built.kind != SecretKind then Ok(built)
      else match decrypt(built.value.text)
        case None => Err(UndecryptableSecret)
        case Some(plain) => Ok(built.(value := Text(plain)))
    }

    /** The getter: every stored variable built, then the secrets decrypted. */
    function Read(stored: seq<Variable>): Result<seq<Variable>, VariableError> {
      if stored == [] then Ok([])
      else
        var front :- Read(stored[..|stored| - 1]);
        var last :- Load(stored[|stored| - 1]);
        Ok(front + [last])
    }

    function Encrypted(v: Variable, draw: nat): Variable {
      if v.kind == SecretKind && v.value.Text? then v.(value := Text(encrypt(draw, v.value.text))) else v
    }

    /** The encryption of a list, each secret with randomness of its own. */
    function EncryptAll(vs: seq<Variable>, draw: nat): (r: seq<Variable>)
      ensures |r| == |vs| && forall i :: 0 <= i < |vs| ==> r[i] == Encrypted(vs[i], draw + i)
    {
      seq(|vs|, i requires 0 <= i < |vs| => Encrypted(vs[i], draw + i))
    }

    /** What the setter stores, given what is stored. */
    function Written(stored: seq<Variable>, value: seq<Variable>, draw: nat): Result<seq<Variable>, VariableError> {
      if value == [] then Ok([])
      else if exists i :: 0 <= i < |value| && value[i].id == "" then Err(MissingId)
      else
        var origin :- Read(stored);
        Ok(Dict(EncryptAll(ResolveAll(origin, value), draw)))
    }
  }

  function WithSelector(v: Variable): Variable {
    if v.selector == [] then v.(selector := [ENVIRONMENT_NODE, v.name]) else v
  }

  /** {var.id: var for var in origin}.get(id): the last variable of that id. */
  function ById(origin: seq<Variable>, id: string): (r: Option<Variable>)
    ensures r.Some? ==> r.value in origin && r.value.id == id
    ensures r.None? ==> forall v :: v in origin ==> v.id != id
    ensures r.Some? ==> exists k :: 0 <= k < |origin| && r.value == origin[k] && forall l :: k < l < |origin| ==> origin[l].id != id
  {
    if origin == [] then None
    else if origin[|origin| - 1].id == id then Some(origin[|origin| - 1])
    else ById(origin[..|origin| - 1], id)
  }

  /** A hidden value stands for the original variable, of which only the name is updated. */
  function Resolve(origin: seq<Variable>, v: Variable): Variable {
    var o := ById(origin, v.id);
    if o.Some? && v.value == Text(HIDDEN_VALUE) then o.value.(name := v.name) else v
  }

  function ResolveAll(origin: seq<Variable>, value: seq<Variable>): (r: seq<Variable>)
    ensures |r| == |value| && forall i :: 0 <= i < |value| ==> r[i] == Resolve(origin, value[i])
  {
    seq(|value|, i requires 0 <= i < |value| => Resolve(origin, value[i]))
  }

  /** d[v.name] = v in a dictionary that keeps the order of insertion. */
  function Put(d: seq<Variable>, v: Variable): seq<Variable> {
    if d == [] then [v]
    else if d[0].name == v.name then [v] + d[1..]
    else [d[0]] + Put(d[1..], v)
  }

  /** {var.name: var for var in vs} */
  function Dict(vs: seq<Variable>): seq<Variable> {
    if vs == [] then [] else Put(Dict(vs[..|vs| - 1]), vs[|vs| - 1])
  }

  predicate DistinctNames(vs: seq<Variable>) {
    forall i, j :: 0 <= i < j < |vs| ==> vs[i].name != vs[j].name
  }

  class Workflow {
    const context: Context
    var stored: Option<seq<Variable>>  // null until first read or written
    var draws: nat

    function Stored(): seq<Variable>
      reads this`stored
    {
      if stored.Some? then stored.value else []
    }

    method GetEnvironmentVariables() returns (r: Result<seq<Variable>, VariableError>)
      modifies this`stored
      ensures Stored() == old(Stored()) && r == context.Read(Stored())
    {
      if stored.None? {
        stored := Some([]);
      }
      r := context.Read(stored.value);
    }

    method SetEnvironmentVariables(value: seq<Variable>) returns (r: Result<(), VariableError>)
      modifies this
      ensures r.Ok? <==> context.Written(old(Stored()), value, old(draws)).Ok?
      ensures Stored() == if r.Ok? then context.Written(old(Stored()), value, old(draws)).value else old(Stored())
      ensures draws == old(draws) + if r.Ok? then |value| else 0
    {
      if value == [] {
        stored := Some([]);
        return Ok(());
      }
      if exists i :: 0 <= i < |value| && value[i].id == "" {
        return Err(MissingId);
      }
      var origin := GetEnvironmentVariables();
      if origin.Err? {
        return Err(origin.error);
      }
      var list := value;
      for i := 0 to |list|
        invariant |list| == |value|
        invariant forall j :: 0 <= j < |list| ==> list[j] == if j < i then Resolve(origin.value, value[j]) else value[j]
      {
        var variable := list[i];
        var original := ById(origin.value, variable.id);
        if original.Some? && variable.value == Text(HIDDEN_VALUE) {
          list := list[i := original.value.(name := variable.name)];
        }
      }
      assert list == ResolveAll(origin.value, value);
      stored := Some(Dict(context.EncryptAll(list, draws)));
      draws := draws + |list|;
      return Ok(());
    }
  }

  // ---- Round trips ----

  lemma {:induction false} PutNewAppends(d: seq<Variable>, v: Variable)
    requires forall i :: 0 <= i < |d| ==> d[i].name != v.name
    ensures Put(d, v) == d + [v]
  {
    if d != [] {
      PutNewAppends(d[1..], v);
    }
  }

  lemma {:induction false} PutOldKeepsLength(d: seq<Variable>, v: Variable)
    requires exists i :: 0 <= i < |d| && d[i].name == v.name
    ensures |Put(d, v)| == |d|
  {
    if d[0].name != v.name {
      var i :| 0 <= i < |d| && d[i].name == v.name;
      assert d[1..][i - 1].name == v.name;
      PutOldKeepsLength(d[1..], v);
    }
  }

  /** The dictionary keeps the whole list exactly when its names are distinct. */
  lemma {:induction false} DictKeepsAllExactly(vs: seq<Variable>)
    ensures DistinctNames(vs) ==> Dict(vs) == vs
    ensures !DistinctNames(vs) ==> |Dict(vs)| < |vs|
    ensures |Dict(vs)| <= |vs|
  {
    if vs != [] {
      var front, last := vs[..|vs| - 1], vs[|vs| - 1];
      DictKeepsAllExactly(front);
      PutLength(Dict(front), last);
      assert Dict(vs) == Put(Dict(front), last);
      hide Put;
      if DistinctNames(vs) {
        assert DistinctNames(front) && Dict(front) == front;
        PutNewAppends(front, last);
        assert front + [last] == vs;
      } else if DistinctNames(front) {
        PutRepeated(vs);
      } else {
        assert |Dict(front)| < |front|;
      }
    }
  }

  lemma {:induction false} PutLength(d: seq<Variable>, v: Variable)
    ensures |Put(d, v)| <= |d| + 1
  {
    if d != [] {
      PutLength(d[1..], v);
    }
  }

  lemma PutRepeated(vs: seq<Variable>)
    requires !DistinctNames(vs) && DistinctNames(vs[..|vs| - 1]) && vs != []
    ensures |Put(vs[..|vs| - 1], vs[|vs| - 1])| < |vs|
  {
    var front, last := vs[..|vs| - 1], vs[|vs| - 1];
    var i, j :| 0 <= i < j < |vs| && vs[i].name == vs[j].name;
    assert forall a, b :: 0 <= a < b < |front| ==> vs[a].name != vs[b].name by {
      assert forall a :: 0 <= a < |front| ==> vs[a] == front[a];
    }
    assert front[i].name == last.name;
    PutOldKeepsLength(front, last);
  }

  lemma {:induction false} ReadElementwise(c: Context, stored: seq<Variable>)
    ensures c.Read(stored).Ok? <==> forall i :: 0 <= i < |stored| ==> c.Load(stored[i]).Ok?
    ensures c.Read(stored).Ok? ==> |c.Read(stored).value| == |stored|
    ensures c.Read(stored).Ok? ==>
              forall i :: 0 <= i < |stored| ==> c.Load(stored[i]) == Ok(c.Read(stored).value[i])
  {
    if stored != [] {
      var front := stored[..|stored| - 1];
      ReadElementwise(c, front);
      assert forall i :: 0 <= i < |front| ==> front[i] == stored[i];
    }
  }

  lemma LoadUndoesEncryptExactly(c: Context, v: Variable, draw: nat)
    requires c.Lawful()
    ensures c.Load(c.Encrypted(v, draw)).Ok? <==> c.Builds(c.Encrypted(v, draw))
    ensures c.Load(c.Encrypted(v, draw)).Ok? ==> c.Load(c.Encrypted(v, draw)) == Ok(WithSelector(v))
  {
  }

  /** Every variable of the list to be stored has a name, a value of its kind and, once
      encrypted, a size within the limit. */
  ghost predicate Storable(c: Context, vs: seq<Variable>, draw: nat) {
    forall i :: 0 <= i < |vs| ==> c.Builds(c.Encrypted(vs[i], draw + i))
  }

  /** The list r is the list written, in order, empty selectors filled in. */
  ghost predicate SurvivesAs(written: seq<Variable>, r: seq<Variable>) {
    |r| == |written| && forall i :: 0 <= i < |written| ==> r[i] == WithSelector(written[i])
  }

  /** Reading after writing gives the written list in order, hidden values replaced by the
      variables read before under the new names, exactly when the names are distinct and every
      variable can be built again: the setter checks neither. */
  lemma ReadAfterWriteExactly(c: Context, stored: seq<Variable>, value: seq<Variable>, draw: nat)
    requires c.Lawful() && c.Read(stored).Ok? && c.Written(stored, value, draw).Ok? && value != []
    ensures var list := ResolveAll(c.Read(stored).value, value);
            var r := c.Read(c.Written(stored, value, draw).value);
            r.Ok? && SurvivesAs(list, r.value) <==> DistinctNames(list) && Storable(c, list, draw)
  {
    hide Context.Read;
    hide Context.Load;
    hide Context.Lawful;
    hide Context.Builds;
    hide Dict;
    var list := ResolveAll(c.Read(stored).value, value);
    var encrypted := c.EncryptAll(list, draw);
    assert forall i :: 0 <= i < |list| ==> encrypted[i].name == list[i].name;
    DictKeepsAllExactly(encrypted);
    ReadElementwise(c, Dict(encrypted));
    forall i | 0 <= i < |encrypted|
      ensures c.Load(encrypted[i]).Ok? <==> c.Builds(encrypted[i])
      ensures c.Load(encrypted[i]).Ok? ==> c.Load(encrypted[i]) == Ok(WithSelector(list[i]))
    {
      LoadUndoesEncryptExactly(c, list[i], draw + i);
    }
  }

  lemma ResolvedNames(origin: seq<Variable>, value: seq<Variable>)
    ensures DistinctNames(ResolveAll(origin, value)) <==> DistinctNames(value)
  {
    var list := ResolveAll(origin, value);
    assert forall i :: 0 <= i < |value| ==> list[i] == Resolve(origin, value[i]);
    assert forall i :: 0 <= i < |value| ==> list[i].name == value[i].name;
  }

  /** What was written can be read only if it can be built again. */
  lemma ReadableIsStorable(c: Context, list: seq<Variable>, draw: nat)
    requires c.Lawful() && DistinctNames(list) && c.Read(Dict(c.EncryptAll(list, draw))).Ok?
    ensures Storable(c, list, draw) && Dict(c.EncryptAll(list, draw)) == c.EncryptAll(list, draw)
  {
    hide Context.Read;
    hide Dict;
    hide Context.Lawful;
    var encrypted := c.EncryptAll(list, draw);
    assert forall i :: 0 <= i < |list| ==> encrypted[i].name == list[i].name;
    DictKeepsAllExactly(encrypted);
    ReadElementwise(c, encrypted);
    forall i | 0 <= i < |list|
      ensures c.Builds(c.Encrypted(list[i], draw + i))
    {
      LoadUndoesEncryptExactly(c, list[i], draw + i);
      assert c.Load(encrypted[i]).Ok?;
    }
  }

  /** Each variable read after a save is the one submitted, unless it was submitted with the hidden
      marker for one read before: then it is that one, the last of its id, under the new name. */
  lemma SavedReadsBack(c: Context, stored: seq<Variable>, value: seq<Variable>, draw: nat, i: nat)
    requires c.Lawful() && c.Read(stored).Ok? && c.Written(stored, value, draw).Ok? && i < |value|
    requires DistinctNames(value) && c.Read(c.Written(stored, value, draw).value).Ok?
    ensures var before, after := c.Read(stored).value, c.Read(c.Written(stored, value, draw).value).value;
            && |after| == |value|
            && if value[i].value == Text("[__HIDDEN__]") && exists v :: v in before && v.id == value[i].id
               then exists k :: && 0 <= k < |before| && before[k].id == value[i].id
                                && (forall l :: k < l < |before| ==> before[l].id != value[i].id)
                                && after[i] == before[k].(name := value[i].name)
               else && after[i].kind == value[i].kind && after[i].id == value[i].id && after[i].name == value[i].name
                    && after[i].description == value[i].description && after[i].value == value[i].value
                    && after[i].selector == if value[i].selector != [] then value[i].selector else ["env", value[i].name]
  {
    var before := c.Read(stored).value;
    var list := ResolveAll(before, value);
    ResolvedNames(before, value);
    ReadableIsStorable(c, list, draw);
    ReadAfterWriteExactly(c, stored, value, draw);
    ReadHasSelectors(c, stored);
    hide Context.Read;
    hide Context.Written;
    hide Context.Lawful;
    assert list[i] == Resolve(before, value[i]);
  }

  lemma ReadHasSelectors(c: Context, stored: seq<Variable>)
    requires c.Read(stored).Ok?
    ensures forall v :: v in c.Read(stored).value ==> WithSelector(v) == v
  {
    ReadElementwise(c, stored);
    forall k | 0 <= k < |stored|
      ensures WithSelector(c.Read(stored).value[k]) == c.Read(stored).value[k]
    {
      assert c.Load(stored[k]).Ok?;
    }
  }

  /** A save is refused exactly when a variable lacks an id or what is stored cannot be read; an
      empty save never is, and leaves nothing. */
  lemma RefusedExactly(c: Context, stored: seq<Variable>, value: seq<Variable>, draw: nat)
    ensures c.Written(stored, value, draw).Err? <==>
              value != [] && ((exists i :: 0 <= i < |value| && value[i].id == "") || c.Read(stored).Err?)
    ensures c.Written(stored, [], draw) == Ok([])
  {
  }

  /** At rest a secret is a token that decrypts to what is read, and anything else is as it is read. */
  lemma SecretsAreTokensAtRest(c: Context, stored: seq<Variable>, i: nat)
    requires c.Read(stored).Ok? && i < |stored|
    ensures var r := c.Read(stored).value;
            && |r| == |stored| && r[i].kind == stored[i].kind && r[i].name == stored[i].name
            && if stored[i].kind == SecretKind
               then stored[i].value.Text? && r[i].value.Text? && c.decrypt(stored[i].value.text) == Some(r[i].value.text)
               else r[i].value == stored[i].value
  {
    ReadElementwise(c, stored);
  }

  /** A list can be read exactly when each variable has a name, a value of its kind within the size
      limit and, if it is a secret, a token that decrypts. */
  lemma ReadsExactly(c: Context, stored: seq<Variable>)
    ensures c.Read(stored).Ok? <==>
              forall i :: 0 <= i < |stored| ==>
                && stored[i].name != "" && c.size(stored[i].value) <= c.limit
                && (match stored[i].kind
                    case StringKind => stored[i].value.Text?
                    case SecretKind => stored[i].value.Text? && c.decrypt(stored[i].value.text).Some?
                    case NumberKind => stored[i].value.Integer? || stored[i].value.Float?
                    case ObjectKind => stored[i].value.Object?
                    case ArrayKind => stored[i].value.Array?)
  {
    ReadElementwise(c, stored);
  }

  /** A variable saved masked under another name keeps the selector made from its old one: the
      selector read back fits the name exactly when the variable was not renamed. */
  lemma RenamedKeepsSelectorExactly(c: Context, stored: seq<Variable>, value: seq<Variable>, draw: nat, i: nat)
    requires c.Lawful() && c.Read(stored).Ok? && c.Written(stored, value, draw).Ok? && i < |value|
    requires var list := ResolveAll(c.Read(stored).value, value); DistinctNames(list) && Storable(c, list, draw)
    requires value[i].value == Text(HIDDEN_VALUE) && ById(c.Read(stored).value, value[i].id).Some?
    requires var o := ById(c.Read(stored).value, value[i].id).value; o.selector == [ENVIRONMENT_NODE, o.name]
    ensures var o := ById(c.Read(stored).value, value[i].id).value;
            var r := c.Read(c.Written(stored, value, draw).value);
            && r.Ok? && i < |r.value| && r.value[i] == o.(name := value[i].name)
            && (r.value[i].selector == [ENVIRONMENT_NODE, value[i].name] <==> value[i].name == o.name)
  {
    ReadAfterWriteExactly(c, stored, value, draw);
    var list := ResolveAll(c.Read(stored).value, value);
    assert list[i] == Resolve(c.Read(stored).value, value[i]);
    assert [ENVIRONMENT_NODE, value[i].name][1] == value[i].name;
  }

  /** A save all of whose hidden values keep the variable `id`. */
  ghost predicate Masks(c: Context, stored: seq<Variable>, value: seq<Variable>, draw: nat, id: string) {
    && value != [] && c.Read(stored).Ok? && c.Written(stored, value, draw).Ok?
    && (var list := ResolveAll(c.Read(stored).value, value); DistinctNames(list) && Storable(c, list, draw))
    && (exists i :: 0 <= i < |value| && value[i].id == id)
    && (forall i :: 0 <= i < |value| && value[i].id == id ==> value[i].value == Text(HIDDEN_VALUE))
  }

  /** The stored form after a series of saves. */
  function SaveAll(c: Context, stored: seq<Variable>, saves: seq<seq<Variable>>, draw: nat): Result<seq<Variable>, VariableError>
    decreases |saves|
  {
    if saves == [] then Ok(stored)
    else
      var next :- c.Written(stored, saves[0], draw);
      SaveAll(c, next, saves[1..], draw + |saves[0]|)
  }

  ghost predicate AllMask(c: Context, stored: seq<Variable>, saves: seq<seq<Variable>>, draw: nat, id: string)
    decreases |saves|
  {
    saves != [] ==>
      && Masks(c, stored, saves[0], draw, id)
      && AllMask(c, c.Written(stored, saves[0], draw).value, saves[1..], draw + |saves[0]|, id)
  }

  /** Every variable of this id reads as a secret with this value, and there is one. */
  ghost predicate Holds(c: Context, stored: seq<Variable>, id: string, secret: string) {
    var r := c.Read(stored);
    && r.Ok? && ById(r.value, id).Some?
    && forall v :: v in r.value && v.id == id ==> v.kind == SecretKind && v.value == Text(secret)
  }

  lemma MaskedSaveKeepsSecret(c: Context, stored: seq<Variable>, value: seq<Variable>, draw: nat, id: string, secret: string)
    requires c.Lawful() && Holds(c, stored, id, secret) && Masks(c, stored, value, draw, id)
    ensures c.Written(stored, value, draw).Ok?
    ensures Holds(c, c.Written(stored, value, draw).value, id, secret)
  {
    var origin := c.Read(stored).value;
    var list := ResolveAll(origin, value);
    ReadAfterWriteExactly(c, stored, value, draw);
    var r := c.Read(c.Written(stored, value, draw).value).value;
    forall i | 0 <= i < |r| && r[i].id == id
      ensures r[i].kind == SecretKind && r[i].value == Text(secret)
    {
      assert r[i] == WithSelector(list[i]) && list[i] == Resolve(origin, value[i]);
    }
    var k :| 0 <= k < |value| && value[k].id == id;
    assert r[k] == WithSelector(Resolve(origin, value[k])) && r[k] in r;
  }

  /** Any number of masked saves never loses a secret, whatever else they rename or change. */
  lemma {:induction false} MaskedSavesKeepSecret(c: Context, stored: seq<Variable>, saves: seq<seq<Variable>>,
                                                draw: nat, id: string, secret: string)
    requires c.Lawful() && Holds(c, stored, id, secret) && AllMask(c, stored, saves, draw, id)
    ensures SaveAll(c, stored, saves, draw).Ok?
    ensures Holds(c, SaveAll(c, stored, saves, draw).value, id, secret)
    decreases |saves|
  {
    hide Context.Lawful;
    hide Context.Written;
    hide Context.Read;
    hide Masks;
    hide Holds;
    if saves != [] {
      MaskedSaveKeepsSecret(c, stored, saves[0], draw, id, secret);
      MaskedSavesKeepSecret(c, c.Written(stored, saves[0], draw).value, saves[1..], draw + |saves[0]|, id, secret);
    }
  }
}
