/** The one-time tokens of libs/helper.py: a key per token, and per account and token type a
    current key that holds its current token. */
module Tokens {
  import opened Results

  datatype TokenError = NoAccountOrEmail | ExpiryNotConfigured | InvalidExpiry

  datatype Account = Account(id: string, email: string)

  datatype Key =
    | TokenKey(tokenType: string, token: string)
    | AccountKey(tokenType: string, accountId: string)

  datatype Value = TokenData(data: map<string, string>) | Current(token: string)

  datatype Entry = Entry(value: Value, expiry: int)

  /** Type and token of every token handed out, with the account it was issued to. */
  type Issued = map<(string, string), string>

  /** int(minutes * seconds) of a configured number of minutes. */
  function Truncate(minutes: real, seconds: int): int {
    var x := minutes * seconds as real;
    if x < 0.0 then -((-x).Floor) else x.Floor
  }

  /** The whole number next to the product on the side of zero; of whole minutes, the product. */
  lemma TruncateRoundsTowardsZero(minutes: real, seconds: int)
    ensures var x, r := minutes * seconds as real, Truncate(minutes, seconds);
            if x < 0.0 then r <= 0 && r as real - 1.0 < x <= r as real else r >= 0 && r as real <= x < r as real + 1.0
    ensures minutes.Floor as real == minutes ==> Truncate(minutes, seconds) == minutes.Floor * seconds
  {
    if minutes.Floor as real == minutes {
      assert minutes * seconds as real == (minutes.Floor * seconds) as real;
    }
  }

  predicate IsLive(store: map<Key, Entry>, key: Key, now: int) {
    key in store && now < store[key].expiry
  }

  /** Every live token of an account is the one its current key holds, and that key outlives it. */
  ghost predicate CurrentKeysCover(store: map<Key, Entry>, issued: Issued, now: int) {
    forall ty: string, tok: string :: (ty, tok) in issued && IsLive(store, TokenKey(ty, tok), now) ==>
      var current := AccountKey(ty, issued[(ty, tok)]);
      && current in store && store[current].value == Current(tok)
      && store[current].expiry >= store[TokenKey(ty, tok)].expiry
  }

  class TokenManager {
    var store: map<Key, Entry>
    var now: int                                // seconds
    const expiryMinutes: map<string, real>      // configured lifetimes by token type
    ghost var issued: Issued

    ghost predicate Valid()
      reads this
    {
      && CurrentKeysCover(store, issued, now)
      && (forall key :: key in store ==> store[key].value.TokenData? == key.TokenKey?)
      && (forall ty: string, tok: string :: TokenKey(ty, tok) in store && (ty, tok) in issued ==> issued[(ty, tok)] != "")
    }

    constructor (expiryMinutes: map<string, real>)
      ensures Valid() && store == map[] && issued == map[] && this.expiryMinutes == expiryMinutes
    {
      this.expiryMinutes := expiryMinutes;
      store, issued, now := map[], map[], 0;
    }

    /** The passing of time. */
    method Wait(seconds: nat)
      requires Valid()
      modifies this`now
      ensures Valid() && now == old(now) + seconds
    {
      now := now + seconds;
    }

    method RevokeToken(token: string, tokenType: string)
      requires Valid()
      modifies this`store
      ensures Valid() && store == old(store) - {TokenKey(tokenType, token)}
    {
      store := store - {TokenKey(tokenType, token)};
    }

    /** Of the tokens issued to an account only the one its current key holds reads as anything. */
    method GetTokenData(token: string, tokenType: string) returns (data: Option<map<string, string>>)
      requires Valid()
      ensures data.Some? && (tokenType, token) in issued ==>
                CurrentToken(store, tokenType, issued[(tokenType, token)], now) == Some(token)
      ensures data.Some? <==> IsLive(store, TokenKey(tokenType, token), now)
      ensures data.Some? ==> data.value == store[TokenKey(tokenType, token)].value.data
    {
      var key := TokenKey(tokenType, token);
      data := if IsLive(store, key, now) then Some(store[key].value.data) else None;
    }

    /** SETEX, which refuses a lifetime of no seconds. */
    method SetEx(key: Key, seconds: int, value: Value) returns (ok: bool)
      modifies this`store
      ensures ok <==> seconds > 0
      ensures store == if seconds > 0 then old(store)[key := Entry(value, now + seconds)] else old(store)
    {
      ok := seconds > 0;
      if ok {
        store := store[key := Entry(value, now + seconds)];
      }
    }

    /** The store with a token of the configured minutes and, for an account, its key of as many hours. */
    function WithToken(store: map<Key, Entry>, tokenType: string, account: Option<Account>, uuid: string, data: map<string, string>)
      : map<Key, Entry>
      requires tokenType in expiryMinutes
      reads this`now
    {
      var minutes := expiryMinutes[tokenType];
      var issued := store[TokenKey(tokenType, uuid) := Entry(TokenData(data), now + Truncate(minutes, 60))];
      if !HasId(account) then issued
      else issued[AccountKey(tokenType, account.value.id) := Entry(Current(uuid), now + Truncate(minutes, 3600))]
    }

    /** Stores a token for an account none of whose tokens is live, or for none. */
    method StoreToken(tokenType: string, account: Option<Account>, uuid: string, data: map<string, string>) returns (ok: bool)
      requires Valid() && tokenType in expiryMinutes && TokenKey(tokenType, uuid) !in store && (tokenType, uuid) !in issued
      requires HasId(account) ==> Silent(store, issued, now, tokenType, account.value.id)
      modifies this`store, this`issued
      ensures Valid() && (ok <==> Truncate(expiryMinutes[tokenType], 60) > 0)
      ensures store == if ok then WithToken(old(store), tokenType, account, uuid, data) else old(store)
      ensures issued == if ok && HasId(account) then old(issued)[(tokenType, uuid) := account.value.id] else old(issued)
      ensures ok && HasId(account) ==>
                && CurrentToken(store, tokenType, account.value.id, now) == Some(uuid)
                && Silent(store, old(issued), now, tokenType, account.value.id)
    {
      hide CurrentKeysCover;
      hide Silent;
      hide Truncate;
      var minutes := expiryMinutes[tokenType];
      ok := SetEx(TokenKey(tokenType, uuid), Truncate(minutes, 60), TokenData(data));
      if !ok {
        return;
      }
      if HasId(account) {
        CurrentKeyOutlivesToken(minutes);
        assert store - {TokenKey(tokenType, uuid)} == old(store);
        IssueKeepsCover(old(store), store, issued, now, tokenType, uuid, account.value.id, now + Truncate(minutes, 3600));
        ok := SetEx(AccountKey(tokenType, account.value.id), Truncate(minutes, 3600), Current(uuid));
        SilentStays(old(store), store, issued, now, tokenType, uuid, account.value.id);
        issued := issued[(tokenType, uuid) := account.value.id];
      } else {
        assert store - {TokenKey(tokenType, uuid)} == old(store);
        UnissuedKeepsCover(old(store), store, issued, now, TokenKey(tokenType, uuid));
      }
    }

    /** Revokes the token the account's key of this type holds, if any. */
    method RevokeCurrent(tokenType: string, accountId: string)
      requires Valid()
      modifies this`store
      ensures Valid() && Silent(store, issued, now, tokenType, accountId)
      ensures var current := CurrentToken(old(store), tokenType, accountId, now);
              store == if current.Some? then old(store) - {TokenKey(tokenType, current.value)} else old(store)
    {
      hide CurrentKeysCover;
      RevokedIsSilent(store, issued, now, tokenType, accountId);
      var oldToken := CurrentToken(store, tokenType, accountId, now);
      if oldToken.Some? {
        RevokeToken(oldToken.value, tokenType);
      }
    }

    /** Issues the token `uuid`, revoking the account's current one of this type. */
    method GenerateToken(tokenType: string, account: Option<Account>, email: Option<string>,
                         additional: map<string, string>, uuid: string)
      returns (r: Result<string, TokenError>)
      requires Valid()
      requires TokenKey(tokenType, uuid) !in store && (tokenType, uuid) !in issued
      modifies this
      ensures Valid() && now == old(now)
      ensures account.None? && email.None? ==> r == Err(NoAccountOrEmail) && store == old(store)
      ensures r.Ok? <==>
                && (account.Some? || email.Some?)
                && tokenType in expiryMinutes && Truncate(expiryMinutes[tokenType], 60) > 0
      ensures r.Ok? ==> r.value == uuid && IsLive(store, TokenKey(tokenType, uuid), now)
      // the token the account's key held is gone; the new one and, for an account, its key are there;
      // all else is as it was
      ensures account.None? && email.None? ==> store == old(store)
      ensures r.Err? && (account.Some? || email.Some?) ==> store == Revoked(old(store), tokenType, account, now)
      ensures r.Ok? ==> store == WithToken(Revoked(old(store), tokenType, account, now), tokenType, account, uuid,
                                           DataOf(tokenType, account, email, additional))
      ensures r.Ok? ==>
                && store[TokenKey(tokenType, uuid)].expiry == now + Truncate(expiryMinutes[tokenType], 60)
                && store[TokenKey(tokenType, uuid)].value == TokenData(DataOf(tokenType, account, email, additional))
      ensures r.Ok? && HasId(account) ==>
                && AccountKey(tokenType, account.value.id) in store
                && store[AccountKey(tokenType, account.value.id)] == Entry(Current(uuid), now + Truncate(expiryMinutes[tokenType], 3600))
      ensures forall key :: key in store && key != TokenKey(tokenType, uuid) && !(HasId(account) && key == AccountKey(tokenType, account.value.id)) ==>
                key in old(store) && store[key] == old(store)[key]
      ensures forall key :: key in old(store) && key !in store ==>
                HasId(account) && key.TokenKey? && key.tokenType == tokenType
                && CurrentToken(old(store), tokenType, account.value.id, now) == Some(key.token)
      ensures issued == if r.Ok? && HasId(account) then old(issued)[(tokenType, uuid) := account.value.id] else old(issued)
      // the account's key holds the new token and its earlier ones read as nothing
      ensures r.Ok? && HasId(account) ==>
                && CurrentToken(store, tokenType, account.value.id, now) == Some(uuid)
                && Silent(store, old(issued), now, tokenType, account.value.id)
    {
      hide CurrentKeysCover;
      hide Silent;
      hide DataOf;
      hide Truncate;
      if account.None? && email.None? {
        return Err(NoAccountOrEmail);
      }
      if HasId(account) {
        RevokeCurrent(tokenType, account.value.id);
      }
      var data := DataOf(tokenType, account, email, additional);
      if tokenType !in expiryMinutes {
        return Err(ExpiryNotConfigured);
      }
      var ok := StoreToken(tokenType, account, uuid, data);
      if !ok {
        return Err(InvalidExpiry);
      }
      return Ok(uuid);
    }
  }

  predicate HasId(account: Option<Account>) {
    account.Some? && account.value.id != ""
  }

  /** The store without the token the account's live key of this type holds. */
  function Revoked(store: map<Key, Entry>, tokenType: string, account: Option<Account>, now: int): map<Key, Entry> {
    if !HasId(account) || CurrentToken(store, tokenType, account.value.id, now).None? then store
    else store - {TokenKey(tokenType, CurrentToken(store, tokenType, account.value.id, now).value)}
  }

  /** What is stored for a token: its type, the address, the account's id, and the additional entries,
      which win. */
  function DataOf(tokenType: string, account: Option<Account>, email: Option<string>, additional: map<string, string>)
    : (data: map<string, string>)
    requires account.Some? || email.Some?
    ensures data.Keys == additional.Keys + {"email", "token_type"} + (if account.Some? then {"account_id"} else {})
    ensures forall key :: key in additional ==> data[key] == additional[key]
    ensures "email" !in additional ==> data["email"] == if account.Some? then account.value.email else email.value
    ensures "token_type" !in additional ==> data["token_type"] == tokenType
    ensures account.Some? && "account_id" !in additional ==> data["account_id"] == account.value.id
  {
    var address := if account.Some? then account.value.email else email.value;
    var data := map["email" := address, "token_type" := tokenType];
    (if account.Some? then data["account_id" := account.value.id] else data) + additional
  }

  function CurrentToken(store: map<Key, Entry>, tokenType: string, accountId: string, now: int): Option<string> {
    var key := AccountKey(tokenType, accountId);
    if IsLive(store, key, now) && store[key].value.Current? then Some(store[key].value.token) else None
  }

  /** The current key is given the configured minutes as if they were hours, so it is never the
      shorter-lived of the two. */
  lemma CurrentKeyOutlivesToken(minutes: real)
    ensures Truncate(minutes, 60) > 0 ==> Truncate(minutes, 3600) >= Truncate(minutes, 60)
  {
  }

  /** No token of the account and type is live. */
  ghost predicate Silent(store: map<Key, Entry>, issued: Issued, now: int, ty: string, id: string) {
    forall tok: string :: (ty, tok) in issued && issued[(ty, tok)] == id ==> !IsLive(store, TokenKey(ty, tok), now)
  }

  /** Revoking the token the current key holds leaves no token of the account live. */
  lemma RevokedIsSilent(store: map<Key, Entry>, issued: Issued, now: int, ty: string, id: string)
    requires CurrentKeysCover(store, issued, now)
    ensures var current := CurrentToken(store, ty, id, now);
            Silent(if current.Some? then store - {TokenKey(ty, current.value)} else store, issued, now, ty, id)
  {
  }

  /** A token that was not issued before leaves a silent account's earlier tokens silent. */
  lemma SilentStays(before: map<Key, Entry>, after: map<Key, Entry>, issued: Issued, now: int, ty: string, tok: string, id: string)
    requires Silent(before, issued, now, ty, id) && (ty, tok) !in issued
    requires forall key :: key in after && key.TokenKey? && key != TokenKey(ty, tok) ==> key in before && after[key] == before[key]
    ensures Silent(after, issued, now, ty, id)
  {
  }

  /** A new token for a silent account, with a current key that outlives it, keeps the others covered. */
  lemma IssueKeepsCover(before: map<Key, Entry>, store: map<Key, Entry>, issued: Issued, now: int,
                        ty: string, tok: string, id: string, expiry: int)
    requires CurrentKeysCover(before, issued, now) && Silent(store - {TokenKey(ty, tok)}, issued, now, ty, id)
    requires forall key :: key in store && key != TokenKey(ty, tok) ==> key in before && store[key] == before[key]
    requires forall key :: key in before && key.AccountKey? ==> key in store
    requires (ty, tok) !in issued && TokenKey(ty, tok) in store && store[TokenKey(ty, tok)].expiry <= expiry
    ensures CurrentKeysCover(store[AccountKey(ty, id) := Entry(Current(tok), expiry)], issued[(ty, tok) := id], now)
  {
    var after := store[AccountKey(ty, id) := Entry(Current(tok), expiry)];
    forall ty': string, tok': string | (ty', tok') in issued && IsLive(after, TokenKey(ty', tok'), now)
      ensures (ty', tok') != (ty, tok) && IsLive(before, TokenKey(ty', tok'), now)
      ensures AccountKey(ty', issued[(ty', tok')]) != AccountKey(ty, id)
    {
      assert IsLive(store - {TokenKey(ty, tok)}, TokenKey(ty', tok'), now);
    }
  }

  lemma UnissuedKeepsCover(before: map<Key, Entry>, store: map<Key, Entry>, issued: Issued, now: int, added: Key)
    requires CurrentKeysCover(before, issued, now) && added.TokenKey? && (added.tokenType, added.token) !in issued
    requires added in store && store - {added} == before
    ensures CurrentKeysCover(store, issued, now)
  {
    assert forall key :: key in store && key != added ==> key in store - {added} && store[key] == before[key];
    assert forall key :: key in before ==> key in store - {added};
  }

  /** In every reachable state an account has at most one live token of a type. */
  lemma OneLiveToken(m: TokenManager, tokenType: string, first: string, second: string)
    requires m.Valid()
    requires (tokenType, first) in m.issued && (tokenType, second) in m.issued
    requires m.issued[(tokenType, first)] == m.issued[(tokenType, second)]
    requires IsLive(m.store, TokenKey(tokenType, first), m.now) && IsLive(m.store, TokenKey(tokenType, second), m.now)
    ensures first == second
  {
    var current := AccountKey(tokenType, m.issued[(tokenType, first)]);
    assert m.store[current].value == Current(first);
    assert m.store[current].value == Current(second);
  }
}
