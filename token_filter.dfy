/**
 * `TokenExtensions.FilterToken`: query helpers over credential-like tokens that
 * expire at `ValidUntil`. A `DateTime` is modelled as its tick count and the
 * current instant (`DateTime.UtcNow`) is the parameter `now`. The soft-delete
 * helper `OfDeletedState(deletedState)` is not part of this model; the caller
 * passes the predicate it selects as `ofDeletedState`.
 */
module TokenExtensions {
  import opened Common
  import opened Queries

  /** The `TokenValidity` enum; `Undefined` is any other value the enum type can hold. */
  datatype TokenValidity = Valid | NotValid | Any | Undefined(code: int)

  /** The fields of an `IToken` (and of an `IUserToken`, which adds `UserId`) the filters read. */
  datatype Token = Token(id: int, tokenKey: Option<string>, validUntil: int, userId: int)

  datatype Error = ArgumentOutOfRange(paramName: string)

  /** The validity condition each enum value selects. */
  predicate InValidity(validity: TokenValidity, now: int, t: Token)
  {
    match validity
    case Valid => t.validUntil >= now
    case NotValid => t.validUntil < now
    case Any => true
    case Undefined(_) => false
  }

  predicate IdMatches(tokenId: Option<int>, t: Token)
  {
    tokenId.Some? ==> t.id == tokenId.value
  }

  predicate KeyMatches(tokenKey: Option<string>, t: Token)
  {
    tokenKey.Some? ==> t.tokenKey == tokenKey
  }

  /** Everything `Filter` asks of a token after the deleted-state filter, as one predicate. */
  function Selects(validity: TokenValidity, now: int, tokenId: Option<int>, tokenKey: Option<string>): Token -> bool
  {
    t => InValidity(validity, now, t) && IdMatches(tokenId, t) && KeyMatches(tokenKey, t)
  }

  /**
   * The private `Filter`: the deleted-state filter, then one `Where` per
   * validity value (none for `Any`), then an id `Where` when an id is given and a
   * key `Where` when a key is given. An undefined validity value throws.
   */
  function Filter(query: seq<Token>, validity: TokenValidity, ofDeletedState: Token -> bool,
                  tokenId: Option<int>, tokenKey: Option<string>, now: int): (r: Result<seq<Token>, Error>)
    ensures r.Failure? <==> validity.Undefined?
    ensures r.Failure? ==> r.error == ArgumentOutOfRange("tokenValidity")
  {
    var q0 := Where(query, ofDeletedState);
    if validity.Undefined? then Failure(ArgumentOutOfRange("tokenValidity"))
    else
      var q1 := match validity
        case Valid => Where(q0, (t: Token) => t.validUntil >= now)
        case NotValid => Where(q0, (t: Token) => t.validUntil < now)
        case _ => q0;
      var q2 := if tokenId.Some? then Where(q1, (t: Token) => t.id == tokenId.value) else q1;
      var q3 := if tokenKey.Some? then Where(q2, (t: Token) => t.tokenKey == tokenKey) else q2;
      Success(q3)
  }

  /** The chain of `Where`s is a single `Where` over the deleted-state-filtered query. */
  lemma FilterIsOneWhere(query: seq<Token>, validity: TokenValidity, ofDeletedState: Token -> bool,
                         tokenId: Option<int>, tokenKey: Option<string>, now: int)
    requires !validity.Undefined?
    ensures Filter(query, validity, ofDeletedState, tokenId, tokenKey, now)
         == Success(Where(Where(query, ofDeletedState), Selects(validity, now, tokenId, tokenKey)))
  {
    var q0 := Where(query, ofDeletedState);
    var s1 := (t: Token) => InValidity(validity, now, t);
    var s2 := (t: Token) => InValidity(validity, now, t) && IdMatches(tokenId, t);
    var q1 := match validity
      case Valid => Where(q0, (t: Token) => t.validUntil >= now)
      case NotValid => Where(q0, (t: Token) => t.validUntil < now)
      case _ => q0;
    match validity {
      case Valid => WhereExt(q0, (t: Token) => t.validUntil >= now, s1);
      case NotValid => WhereExt(q0, (t: Token) => t.validUntil < now, s1);
      case Any => WhereAll(q0, s1);
    }
    assert q1 == Where(q0, s1);
    var q2 := if tokenId.Some? then Where(q1, (t: Token) => t.id == tokenId.value) else q1;
    if tokenId.Some? {
      WhereWhere(q0, s1, (t: Token) => t.id == tokenId.value, s2);
    } else {
      WhereExt(q0, s1, s2);
    }
    assert q2 == Where(q0, s2);
    var s3 := Selects(validity, now, tokenId, tokenKey);
    if tokenKey.Some? {
      WhereWhere(q0, s2, (t: Token) => t.tokenKey == tokenKey, s3);
    } else {
      WhereExt(q0, s2, s3);
    }
  }

  /** `FilterToken(query, tokenId, ...)`: tokens with that id; no key condition. */
  function FilterTokenById(query: seq<Token>, tokenId: int, validity: TokenValidity,
                           ofDeletedState: Token -> bool, now: int): (r: Result<seq<Token>, Error>)
    ensures r.Failure? <==> validity.Undefined?
    ensures r.Success? ==> IsSubsequence(r.value, Where(query, ofDeletedState))
    ensures r.Success? ==> forall i | 0 <= i < |r.value| ::
      && ofDeletedState(r.value[i]) && InValidity(validity, now, r.value[i]) && r.value[i].id == tokenId
    ensures r.Success? ==> forall i | 0 <= i < |query| ::
      ofDeletedState(query[i]) && InValidity(validity, now, query[i]) && query[i].id == tokenId ==> query[i] in r.value
  {
    if validity.Undefined? then Filter(query, validity, ofDeletedState, Some(tokenId), None, now)
    else
      FilterIsOneWhere(query, validity, ofDeletedState, Some(tokenId), None, now);
      WhereIsSubsequence(Where(query, ofDeletedState), Selects(validity, now, Some(tokenId), None));
      WhereTwice(query, ofDeletedState, Selects(validity, now, Some(tokenId), None));
      Filter(query, validity, ofDeletedState, Some(tokenId), None, now)
  }

  /** `FilterToken(query, tokenKey, ...)`: tokens with that key when it is not null; no id condition. */
  function FilterTokenByKey(query: seq<Token>, tokenKey: Option<string>, validity: TokenValidity,
                            ofDeletedState: Token -> bool, now: int): (r: Result<seq<Token>, Error>)
    ensures r.Failure? <==> validity.Undefined?
    ensures r.Success? ==> IsSubsequence(r.value, Where(query, ofDeletedState))
    ensures r.Success? ==> forall i | 0 <= i < |r.value| ::
      && ofDeletedState(r.value[i]) && InValidity(validity, now, r.value[i]) && KeyMatches(tokenKey, r.value[i])
    ensures r.Success? ==> forall i | 0 <= i < |query| ::
      ofDeletedState(query[i]) && InValidity(validity, now, query[i]) && KeyMatches(tokenKey, query[i]) ==> query[i] in r.value
  {
    if validity.Undefined? then Filter(query, validity, ofDeletedState, None, tokenKey, now)
    else
      FilterIsOneWhere(query, validity, ofDeletedState, None, tokenKey, now);
      WhereIsSubsequence(Where(query, ofDeletedState), Selects(validity, now, None, tokenKey));
      WhereTwice(query, ofDeletedState, Selects(validity, now, None, tokenKey));
      Filter(query, validity, ofDeletedState, None, tokenKey, now)
  }

  /** `FilterToken(query, tokenKey, userId, ...)`: the key overload, then only the user's tokens. */
  function FilterUserToken(query: seq<Token>, tokenKey: Option<string>, userId: int, validity: TokenValidity,
                           ofDeletedState: Token -> bool, now: int): (r: Result<seq<Token>, Error>)
    ensures r.Failure? <==> validity.Undefined?
    ensures r.Success? ==> IsSubsequence(r.value, Where(query, ofDeletedState))
    ensures r.Success? ==> forall i | 0 <= i < |r.value| ::
      && ofDeletedState(r.value[i]) && InValidity(validity, now, r.value[i])
      && KeyMatches(tokenKey, r.value[i]) && r.value[i].userId == userId
    ensures r.Success? ==> forall i | 0 <= i < |query| ::
      (&& ofDeletedState(query[i]) && InValidity(validity, now, query[i])
       && KeyMatches(tokenKey, query[i]) && query[i].userId == userId) ==> query[i] in r.value
  {
    match FilterTokenByKey(query, tokenKey, validity, ofDeletedState, now)
    case Failure(e) => Failure(e)
    case Success(q) =>
      var d := Where(query, ofDeletedState);
      var sel := Selects(validity, now, None, tokenKey);
      var both := (t: Token) => sel(t) && t.userId == userId;
      FilterIsOneWhere(query, validity, ofDeletedState, None, tokenKey, now);
      WhereWhere(d, sel, (t: Token) => t.userId == userId, both);
      WhereIsSubsequence(d, both);
      WhereTwice(query, ofDeletedState, both);
      Success(Where(q, (t: Token) => t.userId == userId))
  }

  /**
   * On the same query and conditions, `Valid` and `NotValid` split what `Any`
   * returns: each token occurs in the two together as often as in the `Any` result.
   */
  lemma ValidNotValidPartitionAny(query: seq<Token>, ofDeletedState: Token -> bool,
                                  tokenId: Option<int>, tokenKey: Option<string>, now: int, t: Token)
    ensures var valid := Filter(query, Valid, ofDeletedState, tokenId, tokenKey, now);
            var notValid := Filter(query, NotValid, ofDeletedState, tokenId, tokenKey, now);
            var any := Filter(query, Any, ofDeletedState, tokenId, tokenKey, now);
            valid.Success? && notValid.Success? && any.Success? &&
            multiset(valid.value)[t] + multiset(notValid.value)[t] == multiset(any.value)[t]
  {
    var d := Where(query, ofDeletedState);
    var sAny := Selects(Any, now, tokenId, tokenKey);
    var sValid := Selects(Valid, now, tokenId, tokenKey);
    var sNotValid := Selects(NotValid, now, tokenId, tokenKey);
    var isValid := (t: Token) => t.validUntil >= now;
    var isExpired := (t: Token) => !isValid(t);
    FilterIsOneWhere(query, Valid, ofDeletedState, tokenId, tokenKey, now);
    FilterIsOneWhere(query, NotValid, ofDeletedState, tokenId, tokenKey, now);
    FilterIsOneWhere(query, Any, ofDeletedState, tokenId, tokenKey, now);
    WhereWhere(d, sAny, isValid, sValid);
    WhereWhere(d, sAny, isExpired, sNotValid);
    WherePartition(Where(d, sAny), isValid, isExpired, t);
  }
}
