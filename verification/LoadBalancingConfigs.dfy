/** The stored load-balancing configurations of one model: the service that lists and updates
    them, and the reader that decrypts them through a cache. */
module LoadBalancingConfigs {
  import opened Results
  import RoundRobin

  type Credentials = RoundRobin.Credentials

  const INHERIT := RoundRobin.INHERIT
  const HIDDEN := "[__HIDDEN__]"

  /** The column encrypted_config: empty, not JSON, or a JSON object. */
  datatype Stored = Absent | Malformed | Json(credentials: Credentials)

  datatype Row = Row(name: string, enabled: bool, stored: Stored)

  datatype UpdateError =
    | InvalidName | InvalidEnabled | InvalidId | NameExists | InvalidCredentials | UndecryptableSecret

  /** Token encryption, which draws fresh randomness, and decryption, which may raise. */
  datatype Vault = Vault(encrypt: (nat, string) -> string, decrypt: string -> Option<string>) {
    /** Decryption inverts encryption, and no text is its own plaintext: a stored token is longer
        than what it holds. */
    ghost predicate Lawful() {
      && (forall r: nat, v: string :: decrypt(encrypt(r, v)) == Some(v))
      && (forall token: string :: decrypt(token) != Some(token))
    }
  }

  /** Names of the secret variables in the provider's credential schemas. */
  datatype Provider = Provider(modelSchema: Option<set<string>>, providerSchema: set<string>, custom: bool) {

    /** What the update service treats as secret. */
    function Secrets(): set<string> {
      if modelSchema.Some? then modelSchema.value else providerSchema
    }

    /** What the reader treats as secret. */
    function ReadSecrets(): set<string> {
      if modelSchema.Some? then modelSchema.value else {}
    }
  }

  datatype Request = Request(givenId: Option<string>, name: string, credentials: Credentials, enabled: Option<bool>) {

    /** The id of the row the request is about; an empty one counts as none. */
    function Id(): Option<string> {
      if givenId == Some("") then None else givenId
    }
  }

  /** A configuration as the load balancer receives it. */
  datatype Setting = Setting(id: string, name: string, credentials: Credentials)

  function Parsed(stored: Stored): Credentials {
    if stored.Json? then stored.credentials else map[]
  }

  /** A submitted value that asks to keep the stored secret. */
  predicate Keeps(secrets: set<string>, original: Credentials, submitted: Credentials, key: string) {
    key in submitted && key in secrets && submitted[key] == HIDDEN && key in original
  }

  ghost predicate AtMostOneInherit(rows: map<string, Row>) {
    forall a, b :: a in rows && b in rows && rows[a].name == INHERIT && rows[b].name == INHERIT ==> a == b
  }

  predicate Distinct(s: seq<string>) {
    forall i, j :: 0 <= i < j < |s| ==> s[i] != s[j]
  }

  /** s lists the keys of the rows, each once: the answer of a query without or with an order. */
  ghost predicate Lists(s: seq<string>, rows: map<string, Row>) {
    Distinct(s) && forall id :: id in s <==> id in rows
  }

  class ConfigService {
    const vault: Vault
    const provider: Provider
    var rows: map<string, Row>
    var cache: map<string, Credentials>
    var draws: nat  // randomness used so far

    /** At most one inherited configuration, and every cached credential is the decryption of the
        row it stands for. */
    ghost predicate Valid()
      reads this
    {
      && vault.Lawful() && AtMostOneInherit(rows)
      && forall id :: id in cache ==> id in rows && rows[id].stored.Json? && cache[id] == Decrypted(rows[id].stored.credentials)
    }

    /** What the reader makes of stored credentials: secrets decrypted where that succeeds. */
    function Decrypted(stored: Credentials): Credentials {
      map key | key in stored ::
        var plain := vault.decrypt(stored[key]);
        if key in provider.ReadSecrets() && plain.Some? then plain.value else stored[key]
    }

    // ---- Listing ----

    /** Makes sure the inherited configuration exists, and lists it first. */
    method GetConfigs(order: seq<string>, freshId: string) returns (list: seq<string>)
      requires Valid() && Lists(order, rows) && freshId !in rows
      modifies this`rows
      ensures Valid() && Lists(list, rows)
      ensures rows == old(rows) || rows == old(rows)[freshId := Row("__inherit__", true, Absent)]
      ensures !provider.custom ==> rows == old(rows) && list == order
      ensures provider.custom ==> |list| > 0 && list[0] in rows && rows[list[0]].name == INHERIT
    {
      list := order;
      if provider.custom {
        var inheritExists := false;
        var at := 0;
        for i := 0 to |list|
          invariant !inheritExists && forall j :: 0 <= j < i ==> rows[list[j]].name != INHERIT
        {
          if rows[list[i]].name == INHERIT {
            inheritExists, at := true, i;
            break;
          }
        }
        if !inheritExists {
          assert forall id :: id in rows ==> id in list;
          rows := rows[freshId := Row(INHERIT, true, Absent)];
          list := [freshId] + list;
        } else {
          MoveToFront(list, at);
          list := [list[at]] + (list[..at] + list[at + 1..]);
        }
      }
    }

    // ---- Updating ----

    /** Puts the stored secrets in the place of hidden markers and encrypts all secrets. */
    method ValidateCredentials(original: Credentials, submitted: Credentials) returns (r: Result<Credentials, UpdateError>)
      requires vault.Lawful()
      modifies this`draws
      ensures r.Err? <==>
                exists key :: key in submitted && key in provider.Secrets() && submitted[key] == "[__HIDDEN__]"
                              && key in original && vault.decrypt(original[key]).None?
      ensures r.Err? ==> r.error == UndecryptableSecret
      ensures r.Ok? ==> StoredAs(original, submitted, r.value)
    {
      var secrets := provider.Secrets();
      var credentials := submitted;
      var todo := submitted.Keys;
      while todo != {}
        invariant todo <= submitted.Keys == credentials.Keys
        invariant forall key :: key in todo ==> credentials[key] == submitted[key]
        invariant forall key :: key in submitted && key !in todo ==>
                    if Keeps(secrets, original, submitted, key) then vault.decrypt(original[key]) == Some(credentials[key])
                    else credentials[key] == submitted[key]
      {
        var key :| key in todo;
        if key in secrets && credentials[key] == HIDDEN && key in original {
          var plain := vault.decrypt(original[key]);
          if plain.None? {
            assert Keeps(secrets, original, submitted, key);
            return Err(UndecryptableSecret);
          }
          credentials := credentials[key := plain.value];
        }
        todo := todo - {key};
      }
      var sealed_ := Seal(credentials, secrets);
      return Ok(sealed_);
    }

    /** The stored form of submitted credentials: what is secret, by the model schema or else the
        provider schema, is encrypted, the hidden marker standing for the secret stored before. */
    ghost predicate StoredAs(original: Credentials, submitted: Credentials, stored: Credentials) {
      && stored.Keys == submitted.Keys
      && forall key :: key in submitted ==>
           if (provider.modelSchema.Some? && key in provider.modelSchema.value)
              || (provider.modelSchema.None? && key in provider.providerSchema)
           then vault.decrypt(stored[key]) == if submitted[key] == "[__HIDDEN__]" && key in original
                                              then vault.decrypt(original[key]) else Some(submitted[key])
           else stored[key] == submitted[key]
    }

    method Seal(credentials: Credentials, secrets: set<string>) returns (r: Credentials)
      requires vault.Lawful()
      modifies this`draws
      ensures r.Keys == credentials.Keys
      ensures forall key :: key in credentials ==>
                if key in secrets then vault.decrypt(r[key]) == Some(credentials[key]) else r[key] == credentials[key]
    {
      r := credentials;
      var todo := credentials.Keys;
      while todo != {}
        invariant todo <= credentials.Keys == r.Keys
        invariant forall key :: key in todo ==> r[key] == credentials[key]
        invariant forall key :: key in credentials && key !in todo ==>
                    if key in secrets then vault.decrypt(r[key]) == Some(credentials[key]) else r[key] == credentials[key]
      {
        var key :| key in todo;
        if key in secrets {
          r := r[key := vault.encrypt(draws, r[key])];
          draws := draws + 1;
        }
        todo := todo - {key};
      }
    }

    /** One request for a stored configuration; `current` are the ids found when the update began. */
    method UpdateExisting(id: string, request: Request, current: set<string>) returns (r: Result<(), UpdateError>)
      requires Valid() && id in current && current <= rows.Keys && request.enabled.Some? && request.Id() == Some(id)
      requires forall k :: k in rows && k !in current ==> rows[k].name != INHERIT
      modifies this
      ensures Valid() && rows.Keys == old(rows).Keys
      ensures forall k :: k in rows && k != id ==> rows[k] == old(rows)[k]
      ensures r.Err? ==> rows == old(rows) && cache == old(cache)
      ensures r.Ok? <==>
                && NameFree(old(rows), current, request)
                && (request.credentials != map[] ==> SecretsReadable(Parsed(old(rows)[id].stored), request.credentials))
      ensures (exists k :: k in current && k != id && old(rows)[k].name == request.name) ==> r == Err(NameExists)
      ensures r.Ok? ==> Answers(old(rows)[id], request, rows[id]) && cache == old(cache) - {id}
    {
      if exists k :: k in current && k != id && rows[k].name == request.name {
        return Err(NameExists);
      }
      var stored := rows[id].stored;
      if request.credentials != map[] {
        var checked := ValidateCredentials(Parsed(stored), request.credentials);
        if checked.Err? {
          return Err(checked.error);
        }
        stored := Json(checked.value);
      }
      rows := rows[id := Row(request.name, request.enabled.value, stored)];
      cache := cache - {id};
      return Ok(());
    }

    /** No other row found when the update began has the requested name by now. */
    predicate NameFree(rows: map<string, Row>, current: set<string>, request: Request): (r: bool)
      ensures !r <==> exists k :: k in current && k in rows && rows[k].name == request.name
                                  && (request.givenId == None || request.givenId == Some("") || request.givenId != Some(k))
    {
      forall k :: k in current && k in rows && Some(k) != request.Id() ==> rows[k].name != request.name
    }

    /** Every stored secret that is to be kept can be decrypted. */
    predicate SecretsReadable(original: Credentials, submitted: Credentials): (r: bool)
      ensures !r <==> exists key :: key in submitted && submitted[key] == "[__HIDDEN__]" && key in original
                                    && vault.decrypt(original[key]).None?
                                    && key in match provider.modelSchema case Some(s) => s case None => provider.providerSchema
    {
      forall key :: key in submitted && Keeps(provider.Secrets(), original, submitted, key) ==> vault.decrypt(original[key]).Some?
    }

    /** What is read after credentials were submitted: each value that is not secret as submitted,
        and each secret as intended exactly if the provider has a model credential schema. */
    ghost predicate ReadsBack(original: Credentials, submitted: Credentials, read: Credentials) {
      && read.Keys == submitted.Keys
      && forall key :: key in submitted ==>
           var plain := if submitted[key] == "[__HIDDEN__]" && key in original && vault.decrypt(original[key]).Some?
                        then vault.decrypt(original[key]).value else submitted[key];
           match provider.modelSchema
           case Some(secrets) => read[key] == if key in secrets then plain else submitted[key]
           case None => if key in provider.providerSchema then read[key] != plain else read[key] == submitted[key]
    }

    /** With a model credential schema the kept secret is the value read before. */
    lemma KeptIsWhatWasRead(original: Credentials, key: string)
      requires provider.modelSchema.Some? && key in provider.modelSchema.value
      requires key in original && vault.decrypt(original[key]).Some?
      ensures Decrypted(original)[key] == vault.decrypt(original[key]).value
    {
    }

    /** The row after a request for it. */
    ghost predicate Answers(before: Row, request: Request, after: Row) {
      && after.name == request.name && request.enabled == Some(after.enabled)
      && (request.credentials == map[] ==> after.stored == before.stored)
      && (request.credentials != map[] ==>
            && after.stored.Json?
            && StoredAs(Parsed(before.stored), request.credentials, after.stored.credentials)
            && ReadsBack(Parsed(before.stored), request.credentials, Decrypted(after.stored.credentials)))
    }

    /** A row made for a request. */
    ghost predicate Creates(request: Request, row: Row) {
      && row.name == request.name != INHERIT && row.enabled && row.stored.Json?
      && StoredAs(map[], request.credentials, row.stored.credentials)
      && ReadsBack(map[], request.credentials, Decrypted(row.stored.credentials))
    }

    /** When a request of an update is served. */
    predicate Acceptable(rows: map<string, Row>, current: set<string>, request: Request) {
      && request.name != "" && request.enabled.Some? && NameFree(rows, current, request)
      && match request.Id()
         case Some(id) =>
           && id in current && id in rows
           && (request.credentials != map[] ==> SecretsReadable(Parsed(rows[id].stored), request.credentials))
         case None => request.name != INHERIT && request.credentials != map[]
    }

    lemma AcceptableExactly(rows: map<string, Row>, current: set<string>, request: Request)
      ensures Acceptable(rows, current, request) <==>
                && request.name != "" && request.enabled.Some?
                && (forall k :: k in current && k in rows && rows[k].name == request.name ==>
                      request.givenId == Some(k) && k != "")
                && (if request.givenId == None || request.givenId == Some("")
                    then request.name != "__inherit__" && request.credentials != map[]
                    else request.givenId.value in current && request.givenId.value in rows
                         && var stored := rows[request.givenId.value].stored;
                            stored.Json? ==>
                              forall key :: key in request.credentials && request.credentials[key] == "[__HIDDEN__]"
                                            && key in stored.credentials
                                            && key in (match provider.modelSchema case Some(s) => s case None => provider.providerSchema) ==>
                                vault.decrypt(stored.credentials[key]).Some?)
    {
      hide NameFree;
      hide SecretsReadable;
    }

    /** One request without an id. */
    method CreateConfig(freshId: string, request: Request, current: set<string>) returns (r: Result<(), UpdateError>)
      requires Valid() && freshId !in rows && current <= rows.Keys && request.Id().None?
      modifies this
      ensures Valid() && cache == old(cache)
      ensures r.Err? ==> rows == old(rows)
      ensures r.Ok? <==> request.name != INHERIT && request.credentials != map[] && NameFree(old(rows), current, request)
      ensures r.Ok? ==>
                && rows.Keys == old(rows).Keys + {freshId} && (forall k :: k in old(rows) ==> rows[k] == old(rows)[k])
                && Creates(request, rows[freshId])
    {
      if request.name == INHERIT {
        return Err(InvalidName);
      }
      if exists k :: k in current && rows[k].name == request.name {
        return Err(NameExists);
      }
      if request.credentials == map[] {
        return Err(InvalidCredentials);
      }
      var checked := ValidateCredentials(map[], request.credentials);
      rows := rows[freshId := Row(request.name, true, Json(checked.value))];
      return Ok(());
    }

    /** One request of an update. */
    method ServeRequest(request: Request, freshId: string, current: set<string>) returns (r: Result<(), UpdateError>)
      requires Valid() && current <= rows.Keys && freshId !in rows
      requires forall k :: k in rows && k !in current ==> rows[k].name != INHERIT
      modifies this
      ensures Valid() && current <= rows.Keys && forall k :: k in rows && k !in current ==> rows[k].name != INHERIT
      ensures r.Err? ==> rows == old(rows)
      ensures r.Ok? <==> Acceptable(old(rows), current, request)
      ensures r.Ok? ==> Serves(old(rows), request, freshId, rows) && (request.Id().Some? ==> request.Id().value in current)
    {
      hide Answers;
      hide Creates;
      hide NameFree;
      hide SecretsReadable;
      if request.name == "" {
        return Err(InvalidName);
      }
      if request.enabled.None? {
        return Err(InvalidEnabled);
      }
      if request.Id().Some? {
        if request.Id().value !in current {
          return Err(InvalidId);
        }
        r := UpdateExisting(request.Id().value, request, current);
      } else {
        r := CreateConfig(freshId, request, current);
        CreatedIsNotInherited(request, if freshId in rows then rows[freshId] else Row("", false, Absent));
      }
    }

    lemma CreatedIsNotInherited(request: Request, row: Row)
      ensures Creates(request, row) ==> row.name != INHERIT
    {
    }

    /** The one row a request is about has been updated or made, and no other row has changed. */
    ghost predicate Serves(before: map<string, Row>, request: Request, freshId: string, after: map<string, Row>) {
      var id := if request.Id().Some? then request.Id().value else freshId;
      && id in after && after.Keys == before.Keys + {id} && (forall k :: k in before && k != id ==> after[k] == before[k])
      && (request.Id().Some? ==> id in before && Answers(before[id], request, after[id]))
      && (request.Id().None? ==> Creates(request, after[id]))
    }

    /** Request k is served: it alone names its id and the row answers it, or it made a row. */
    ghost predicate ServedAt(before: map<string, Row>, requests: seq<Request>, freshIds: seq<string>, k: nat, after: map<string, Row>)
      requires k < |requests| == |freshIds|
    {
      match requests[k].Id()
      case Some(id) => Alone(requests, k) ==> id in before && id in after && Answers(before[id], requests[k], after[id])
      case None => freshIds[k] in after && Creates(requests[k], after[freshIds[k]])
    }

    ghost predicate Served(before: map<string, Row>, requests: seq<Request>, freshIds: seq<string>, n: nat, after: map<string, Row>)
      requires n <= |requests| == |freshIds|
    {
      forall k :: 0 <= k < n ==> ServedAt(before, requests, freshIds, k, after)
    }

    /** A row the first n requests do not name is as it was. */
    ghost predicate Untouched(before: map<string, Row>, requests: seq<Request>, n: nat, after: map<string, Row>)
      requires n <= |requests|
    {
      forall id :: id in before && (forall j :: 0 <= j < n ==> requests[j].Id() != Some(id)) ==>
        id in after && after[id] == before[id]
    }

    lemma ServedMore(before: map<string, Row>, requests: seq<Request>, freshIds: seq<string>, n: nat,
                     rows: map<string, Row>, after: map<string, Row>)
      requires n < |requests| == |freshIds| && Distinct(freshIds)
      requires forall id :: id in freshIds ==> id !in before
      requires Served(before, requests, freshIds, n, rows) && Untouched(before, requests, n, rows)
      requires Serves(rows, requests[n], freshIds[n], after)
      requires requests[n].Id().Some? ==> requests[n].Id().value in before
      ensures Served(before, requests, freshIds, n + 1, after) && Untouched(before, requests, n + 1, after)
    {
      hide Answers;
      hide Creates;
      hide Alone;
      forall k | 0 <= k < n
        ensures ServedAt(before, requests, freshIds, k, after)
      {
        ServedStays(before, requests, freshIds, k, n, rows, after);
      }
      assert ServedAt(before, requests, freshIds, n, after) by {
        NewlyServed(before, requests, freshIds, n, rows, after);
      }
      assert freshIds[n] in freshIds;
      assert forall id :: id in before && id != freshIds[n] && requests[n].Id() != Some(id) && id in rows ==> after[id] == rows[id];
    }

    lemma ServedStays(before: map<string, Row>, requests: seq<Request>, freshIds: seq<string>, k: nat, n: nat,
                      rows: map<string, Row>, after: map<string, Row>)
      requires k < n < |requests| == |freshIds| && Distinct(freshIds)
      requires forall id :: id in freshIds ==> id !in before
      requires ServedAt(before, requests, freshIds, k, rows) && Serves(rows, requests[n], freshIds[n], after)
      requires requests[n].Id().Some? ==> requests[n].Id().value in before
      ensures ServedAt(before, requests, freshIds, k, after)
    {
      hide Answers;
      hide Creates;
      assert freshIds[k] in freshIds && freshIds[n] in freshIds && freshIds[k] != freshIds[n];
    }

    lemma NewlyServed(before: map<string, Row>, requests: seq<Request>, freshIds: seq<string>, n: nat,
                      rows: map<string, Row>, after: map<string, Row>)
      requires n < |requests| == |freshIds| && Untouched(before, requests, n, rows)
      requires Serves(rows, requests[n], freshIds[n], after)
      requires requests[n].Id().Some? ==> requests[n].Id().value in before
      ensures ServedAt(before, requests, freshIds, n, after)
    {
      hide Answers;
      hide Creates;
    }

    /** The rows before each request and after the last one served: every request so far was
        acceptable to the rows it found, and was served. */
    ghost predicate InTurn(trace: seq<map<string, Row>>, current: set<string>, requests: seq<Request>, freshIds: seq<string>)
      requires |requests| == |freshIds|
    {
      && 0 < |trace| <= |requests| + 1
      && forall k :: 0 <= k < |trace| - 1 ==>
           Acceptable(trace[k], current, requests[k]) && Serves(trace[k], requests[k], freshIds[k], trace[k + 1])
    }

    lemma OneMoreInTurn(trace: seq<map<string, Row>>, current: set<string>, requests: seq<Request>, freshIds: seq<string>,
                        after: map<string, Row>)
      requires |requests| == |freshIds| && InTurn(trace, current, requests, freshIds) && |trace| <= |requests|
      requires var k := |trace| - 1;
               Acceptable(trace[k], current, requests[k]) && Serves(trace[k], requests[k], freshIds[k], after)
      ensures InTurn(trace + [after], current, requests, freshIds)
    {
      hide Serves;
      hide Acceptable;
    }

    /** The whole update: each request in turn, committed one by one and stopping at the first one
        that is not acceptable; then every configuration no request named is deleted. */
    method Update(requests: seq<Request>, freshIds: seq<string>)
      returns (r: Result<(), UpdateError>, ghost trace: seq<map<string, Row>>)
      requires Valid() && |freshIds| == |requests| && Distinct(freshIds)
      requires forall id :: id in freshIds ==> id !in rows
      modifies this
      ensures Valid()
      ensures InTurn(trace, old(rows).Keys, requests, freshIds) && trace[0] == old(rows)
      ensures r.Ok? <==> |trace| == |requests| + 1
      ensures r.Err? ==> !Acceptable(rows, old(rows).Keys, requests[|trace| - 1]) && rows == trace[|trace| - 1]
      ensures r.Err? ==> old(rows).Keys <= rows.Keys
      ensures r.Ok? ==> rows == trace[|requests|] - Unnamed(old(rows), requests)
      ensures r.Ok? ==> forall id :: id in old(rows) ==> (id in rows <==> id in Named(requests))
      ensures Unproblematic(old(rows), requests) ==> r.Ok?
      ensures r.Ok? ==> Served(old(rows), requests, freshIds, |requests|, rows)
    {
      hide Serves;
      hide Served;
      hide Untouched;
      hide Acceptable;
      hide InTurn;
      hide Unproblematic;
      var current := rows.Keys;
      var updated: set<string> := {};
      trace := [rows];
      NothingServed(rows, requests, freshIds);
      for i := 0 to |requests|
        invariant Valid() && current == old(rows).Keys <= rows.Keys
        invariant forall k :: k in rows && k !in current ==> rows[k].name != INHERIT
        invariant rows.Keys <= current + set k | k in freshIds[..i]
        invariant |trace| == i + 1 && trace[0] == old(rows) && trace[i] == rows && InTurn(trace, current, requests, freshIds)
        invariant Served(old(rows), requests, freshIds, i, rows) && Untouched(old(rows), requests, i, rows)
        invariant updated == Named(requests[..i]) <= current
      {
        FreshIsNew(freshIds, i);
        var done := ServeRequest(requests[i], freshIds[i], current);
        if done.Err? {
          if Unproblematic(old(rows), requests) {
            UnproblematicIsAcceptable(trace, requests, freshIds);
          }
          return done, trace;
        }
        ServedMore(old(rows), requests, freshIds, i, trace[i], rows);
        ServesOne(trace[i], requests[i], freshIds[i], rows);
        OneMoreInTurn(trace, current, requests, freshIds, rows);
        trace := trace + [rows];
        if requests[i].Id().Some? {
          updated := updated + {requests[i].Id().value};
        }
        NamedMore(requests, i);
        assert freshIds[..i + 1] == freshIds[..i] + [freshIds[i]];
      }
      assert requests[..|requests|] == requests;
      DeleteConfigs(current - updated);
      DeletionKeepsServed(old(rows), requests, freshIds, trace[|requests|], rows);
      return Ok(()), trace;
    }

    /** Enough for an update to succeed: well-formed requests with names of their own, for different
        rows, whose kept secrets are readable. */
    predicate Unproblematic(rows: map<string, Row>, requests: seq<Request>) {
      && (forall i :: 0 <= i < |requests| ==>
            Acceptable(rows, rows.Keys, requests[i]))
      && (forall i, j :: 0 <= i < j < |requests| ==>
            requests[i].name != requests[j].name && (requests[i].Id().Some? ==> requests[i].Id() != requests[j].Id()))
    }

    /** While unproblematic requests are served, each row of the beginning is as it was or has the
        name of the request for it. */
    lemma {:induction false} NamesInTurn(trace: seq<map<string, Row>>, requests: seq<Request>, freshIds: seq<string>, k: nat, id: string)
      requires |requests| == |freshIds| && trace != [] && (forall f :: f in freshIds ==> f !in trace[0])
      requires InTurn(trace, trace[0].Keys, requests, freshIds) && k < |trace| && id in trace[0]
      ensures id in trace[k]
      ensures trace[k][id] == trace[0][id] || exists j :: 0 <= j < k && requests[j].Id() == Some(id) && trace[k][id].name == requests[j].name
      decreases k
    {
      hide Answers;
      hide Creates;
      hide Acceptable;
      if k > 0 {
        NamesInTurn(trace, requests, freshIds, k - 1, id);
        assert Serves(trace[k - 1], requests[k - 1], freshIds[k - 1], trace[k]) && freshIds[k - 1] in freshIds;
        if requests[k - 1].Id() == Some(id) {
          AnswerHasName(trace[k - 1][id], requests[k - 1], trace[k][id]);
        } else {
          assert trace[k][id] == trace[k - 1][id];
        }
      }
    }

    lemma AnswerHasName(before: Row, request: Request, after: Row)
      requires Answers(before, request, after)
      ensures after.name == request.name
    {
    }

    lemma UnproblematicIsAcceptable(trace: seq<map<string, Row>>, requests: seq<Request>, freshIds: seq<string>)
      requires |requests| == |freshIds| && trace != [] && (forall f :: f in freshIds ==> f !in trace[0])
      requires InTurn(trace, trace[0].Keys, requests, freshIds) && |trace| <= |requests|
      requires Unproblematic(trace[0], requests)
      ensures Acceptable(trace[|trace| - 1], trace[0].Keys, requests[|trace| - 1])
    {
      hide Serves;
      hide SecretsReadable;
      var n := |trace| - 1;
      var request := requests[n];
      assert Acceptable(trace[0], trace[0].Keys, request);
      forall id | id in trace[0]
        ensures id in trace[n]
        ensures Some(id) != request.Id() ==> trace[n][id].name != request.name
        ensures Some(id) == request.Id() ==> trace[n][id] == trace[0][id]
      {
        NamesInTurn(trace, requests, freshIds, n, id);
      }
    }

    method DeleteConfigs(ids: set<string>)
      requires Valid() && ids <= rows.Keys
      modifies this
      ensures Valid() && rows == old(rows) - ids
    {
      var deleted := ids;
      while deleted != {}
        invariant Valid() && deleted <= rows.Keys && deleted <= ids && rows == old(rows) - (ids - deleted)
      {
        var id :| id in deleted;
        rows := rows - {id};
        cache := cache - {id};
        deleted := deleted - {id};
      }
    }

    lemma NothingServed(rows: map<string, Row>, requests: seq<Request>, freshIds: seq<string>)
      requires |requests| == |freshIds|
      ensures Served(rows, requests, freshIds, 0, rows) && Untouched(rows, requests, 0, rows)
      ensures InTurn([rows], rows.Keys, requests, freshIds)
    {
    }

    lemma ServesOne(before: map<string, Row>, request: Request, freshId: string, after: map<string, Row>)
      requires Serves(before, request, freshId, after)
      ensures after.Keys <= before.Keys + {freshId}
    {
    }

    /** Deleting what no request names leaves the requests served. */
    lemma DeletionKeepsServed(before: map<string, Row>, requests: seq<Request>, freshIds: seq<string>,
                    served: map<string, Row>, after: map<string, Row>)
      requires |requests| == |freshIds| && Served(before, requests, freshIds, |requests|, served)
      requires forall id :: id in freshIds ==> id !in before
      requires after == served - Unnamed(before, requests)
      ensures Served(before, requests, freshIds, |requests|, after)
    {
      hide Answers;
      hide Creates;
      forall k | 0 <= k < |requests|
        ensures ServedAt(before, requests, freshIds, k, after)
      {
        assert ServedAt(before, requests, freshIds, k, served) && freshIds[k] in freshIds;
      }
    }

    // ---- Reading ----

    /** Without a model credential schema a secret is read as the token it is stored as. */
    lemma SecretReadAsToken()
      requires vault.Lawful() && provider == Provider(None, {"api_key"}, true)
      ensures provider.Secrets() == {"api_key"}
      ensures var stored := map["api_key" := vault.encrypt(0, "secret")];
              vault.decrypt(stored["api_key"]) == Some("secret") && Decrypted(stored) == stored && stored["api_key"] != "secret"
    {
    }

    /** What the stored rows amount to for the load balancer, without any cache. */
    function Settings(order: seq<string>): seq<Setting>
      reads this`rows
    {
      if order == [] then []
      else Settings(order[..|order| - 1]) + SettingOf(order[|order| - 1])
    }

    function SettingOf(id: string): seq<Setting>
      reads this`rows
    {
      if id !in rows || !rows[id].enabled then []
      else match rows[id].stored
        case Absent => if rows[id].name == INHERIT then [Setting(id, rows[id].name, map[])] else []
        case Malformed => []
        case Json(c) => [Setting(id, rows[id].name, Decrypted(c))]
    }

    /** The configurations of a model with load balancing enabled, through the cache, some of whose
        entries have expired: fewer than two count as none. The cache does not show. */
    method ReadSettings(order: seq<string>, expired: set<string>) returns (list: seq<Setting>)
      requires Valid() && Lists(order, rows)
      modifies this`cache
      ensures Valid()
      ensures list == if |Settings(order)| > 1 then Settings(order) else []
    {
      cache := cache - expired;
      list := [];
      for i := 0 to |order|
        invariant Valid() && list == Settings(order[..i])
      {
        var id := order[i];
        assert order[..i + 1][..i] == order[..i];
        var row := rows[id];
        if !row.enabled {
          continue;
        }
        if row.stored.Absent? {
          if row.name == INHERIT {
            list := list + [Setting(id, row.name, map[])];
          }
          continue;
        }
        var credentials: Credentials := if id in cache then cache[id] else map[];
        if credentials == map[] {
          if row.stored.Malformed? {
            continue;
          }
          credentials := Decrypted(row.stored.credentials);
          cache := cache[id := credentials];
        }
        list := list + [Setting(id, row.name, credentials)];
      }
      assert order[..|order|] == order;
      list := if |list| > 1 then list else [];
    }

    /** Whatever the reader hands to the balancer, a configuration is left for it to choose, so that
        the modulus of the round robin is never zero. */
    lemma BalancerNeverRunsEmpty(order: seq<string>, managed: Credentials)
      requires Valid() && Lists(order, rows) && |Settings(order)| > 1
      ensures RoundRobin.Prepared(Configs(Settings(order)), managed) != []
      ensures RoundRobin.DistinctIds(RoundRobin.Prepared(Configs(Settings(order)), managed))
    {
      SettingsKeepIds(order);
      var settings := Settings(order);
      assert forall i :: 0 <= i < |settings| ==> settings[i] in settings;
      var configs := Configs(Settings(order));
      forall i, j | 0 <= i < j < |configs|
        ensures configs[i].name != INHERIT || configs[j].name != INHERIT
      {
      }
      RoundRobin.PreparedIsUsable(configs, managed);
    }

    /** A row gives a setting exactly if it is enabled and holds credentials or is the inherited one
        without any, the credentials decrypted by the model schema. */
    lemma {:induction false} SettingsExactly(order: seq<string>, id: string)
      requires id in order && id in rows
      ensures (exists s :: s in Settings(order) && s.id == id) <==>
                rows[id].enabled && (rows[id].stored.Json? || (rows[id].stored.Absent? && rows[id].name == "__inherit__"))
      ensures forall s :: s in Settings(order) && s.id == id ==>
                && s.name == rows[id].name
                && s.credentials.Keys == (if rows[id].stored.Json? then rows[id].stored.credentials.Keys else {})
                && forall key :: key in s.credentials ==>
                     var token := rows[id].stored.credentials[key];
                     s.credentials[key] == if provider.modelSchema.Some? && key in provider.modelSchema.value && vault.decrypt(token).Some?
                                           then vault.decrypt(token).value else token
    {
      var front, last := order[..|order| - 1], order[|order| - 1];
      assert order == front + [last];
      if id in front {
        SettingsExactly(front, id);
      } else {
        NotListed(front, id);
      }
      SettingOfExactly(id);
      if last == id && SettingOf(id) != [] {
        assert SettingOf(id)[0] in Settings(order);
      }
      assert forall s :: s in SettingOf(last) ==> s.id == last;
    }

    lemma {:induction false} NotListed(order: seq<string>, id: string)
      requires id !in order
      ensures forall s :: s in Settings(order) ==> s.id != id
    {
      if order != [] {
        NotListed(order[..|order| - 1], id);
      }
    }

    lemma SettingOfExactly(id: string)
      requires id in rows
      ensures SettingOf(id) != [] <==>
                rows[id].enabled && (rows[id].stored.Json? || (rows[id].stored.Absent? && rows[id].name == "__inherit__"))
      ensures forall s :: s in SettingOf(id) ==>
                && s.id == id && s.name == rows[id].name
                && s.credentials.Keys == (if rows[id].stored.Json? then rows[id].stored.credentials.Keys else {})
                && forall key :: key in s.credentials ==>
                     var token := rows[id].stored.credentials[key];
                     s.credentials[key] == if provider.modelSchema.Some? && key in provider.modelSchema.value && vault.decrypt(token).Some?
                                           then vault.decrypt(token).value else token
    {
    }

    /** Settings come in the order of the rows. */
    lemma {:induction false} SettingsInOrder(order: seq<string>, i: nat, j: nat, p: nat, q: nat)
      requires Distinct(order) && i < j < |Settings(order)| && p < |order| && q < |order|
      requires Settings(order)[i].id == order[p] && Settings(order)[j].id == order[q]
      ensures p < q
    {
      var front, last := order[..|order| - 1], order[|order| - 1];
      assert order == front + [last];
      var before, t := Settings(front), SettingOf(last);
      assert Settings(order) == before + t && |t| <= 1;
      assert forall k :: 0 <= k < |t| ==> t[k].id == last;
      SettingsKeepIds(front);
      hide Settings;
      hide SettingOf;
      assert before[i] in before;
      FrontIndex(order, p);
      if j < |before| {
        assert before[j] in before;
        FrontIndex(order, q);
        SettingsInOrder(front, i, j, p, q);
      } else {
        assert order[q] == last;
      }
    }

    lemma {:induction false} SettingsKeepIds(order: seq<string>)
      requires Distinct(order)
      ensures forall s :: s in Settings(order) ==> s.id in order && s.id in rows && s.name == rows[s.id].name
      ensures forall i, j :: 0 <= i < j < |Settings(order)| ==> Settings(order)[i].id != Settings(order)[j].id
    {
      if order != [] {
        var front, last := order[..|order| - 1], order[|order| - 1];
        assert order == front + [last];
        SettingsKeepIds(front);
        var all, before, t := Settings(order), Settings(front), SettingOf(last);
        forall i, j | 0 <= i < j < |all|
          ensures all[i].id != all[j].id
        {
          assert all[i] == before[i] && before[i] in before;
          if j < |before| {
            assert all[j] == before[j];
          } else {
            assert all[j] == t[0];
          }
        }
      }
    }
  }

  function Configs(settings: seq<Setting>): seq<RoundRobin.Config> {
    seq(|settings|, i requires 0 <= i < |settings| => RoundRobin.Config(settings[i].id, settings[i].name, settings[i].credentials))
  }

  /** The ids the requests name. */
  function Named(requests: seq<Request>): set<string> {
    set r | r in requests && r.Id().Some? :: r.Id().value
  }

  lemma NamedExactly(requests: seq<Request>, id: string)
    ensures id in Named(requests) <==> id != "" && exists i :: 0 <= i < |requests| && requests[i].givenId == Some(id)
  {
    if i :| 0 <= i < |requests| && requests[i].givenId == Some(id) && id != "" {
      assert requests[i] in requests && requests[i].Id() == Some(id);
    }
  }

  function Unnamed(rows: map<string, Row>, requests: seq<Request>): set<string> {
    rows.Keys - Named(requests)
  }

  lemma NamedMore(requests: seq<Request>, i: nat)
    requires i < |requests|
    ensures Named(requests[..i + 1]) == Named(requests[..i]) + if requests[i].Id().Some? then {requests[i].Id().value} else {}
  {
    assert requests[..i + 1] == requests[..i] + [requests[i]];
  }

  predicate Alone(requests: seq<Request>, k: nat)
    requires k < |requests|
  {
    forall j :: 0 <= j < |requests| && j != k ==> requests[j].Id() != requests[k].Id()
  }

  lemma FrontIndex(s: seq<string>, k: nat)
    requires Distinct(s) && k < |s| && s[k] in s[..|s| - 1]
    ensures k < |s| - 1 && s[..|s| - 1][k] == s[k] && Distinct(s[..|s| - 1])
  {
  }

  lemma MoveToFront(s: seq<string>, k: nat)
    requires Distinct(s) && k < |s|
    ensures var t := [s[k]] + (s[..k] + s[k + 1..]); Distinct(t) && forall x :: x in t <==> x in s
  {
    var t := [s[k]] + (s[..k] + s[k + 1..]);
    assert s == s[..k] + [s[k]] + s[k + 1..];
    forall x | x in s
      ensures x in t
    {
    }
  }

  lemma FreshIsNew(freshIds: seq<string>, i: nat)
    requires Distinct(freshIds) && i < |freshIds|
    ensures freshIds[i] !in freshIds[..i]
  {
  }
}
