/** The rotation pool of signing keys: construction with an index by key id, verification by `kid`, and the scan of
    numbered environment variables that loads it. */
module KeyRotation {
  import opened Wrappers

  // One RS256KeyStore. `pair` stands for the RSA key pair: a signature verifies exactly with the pair that made it.
  datatype KeyStore = KeyStore(keyId: string, pair: nat, hasPrivate: bool)

  // The header and the signature of a token, with its expiry. An absent kid or alg is the empty string.
  datatype Token = Token(kid: string, alg: string, signer: nat, exp: int)

  datatype PoolError = NoKeys | DuplicateKeyId(keyId: string) | CurrentKeyNotSet | CurrentKeyMalformed

  datatype TokenError = MalformedHeader | WrongAlgorithm | UnknownKey | Expired | BadSignature | CannotSign

  predicate Distinct(keys: seq<KeyStore>) {
    forall i, j :: 0 <= i < j < |keys| ==> keys[i].keyId != keys[j].keyId
  }

  // jwt.decode with one public key and RS256 only.
  function Check(k: KeyStore, t: Token, now: int): Result<Token, TokenError> {
    if t.alg != "RS256" then Failure(WrongAlgorithm)
    else if t.signer != k.pair then Failure(BadSignature)
    else if now >= t.exp then Failure(Expired)
    else Success(t)
  }

  function Sign(k: KeyStore, exp: int): Result<Token, TokenError> {
    if !k.hasPrivate then Failure(CannotSign) else Success(Token(k.keyId, "RS256", k.pair, exp))
  }

  class RotationStore {
    const keys: seq<KeyStore>
    const index: map<string, KeyStore>

    constructor (keys: seq<KeyStore>, index: map<string, KeyStore>)
      ensures this.keys == keys && this.index == index
    {
      this.keys, this.index := keys, index;
    }

    // The index is exactly the duplicate-free key list.
    ghost predicate Valid() {
      keys != [] && Distinct(keys) && IsIndex(keys, index)
    }

    method SignToken(exp: int) returns (r: Result<Token, TokenError>)
      requires Valid()
      ensures r == Sign(keys[0], exp)
      ensures r == if keys[0].hasPrivate then Success(Token(keys[0].keyId, "RS256", keys[0].pair, exp))
                   else Failure(CannotSign)
      ensures r.Success? ==> forall now :: Accepts(keys, r.value, now) <==> now < exp
    {
      r := Sign(keys[0], exp);
    }

    method VerifyToken(token: Option<Token>, now: int) returns (r: Result<Token, TokenError>)
      requires Valid()
      ensures r.Success? <==> token.Some? && Accepts(keys, token.value, now)
      ensures r == if token.None? then Failure(MalformedHeader)
                   else
                     var t := token.value;
                     var known := exists i :: 0 <= i < |keys| && keys[i].keyId == t.kid;
                     if t.alg != "RS256" && (t.alg != "" || t.kid == "" || known) then Failure(WrongAlgorithm)
                     else if t.kid != "" && !known then Failure(UnknownKey)
                     else if !(if known then exists i :: 0 <= i < |keys| && keys[i].keyId == t.kid
                                                         && keys[i].pair == t.signer
                               else t.signer == keys[0].pair) then Failure(BadSignature)
                     else if now >= t.exp then Failure(Expired)
                     else Success(t)
    {
      if token.None? {
        return Failure(MalformedHeader);
      }
      var t := token.value;
      if t.alg != "" && t.alg != "RS256" {
        return Failure(WrongAlgorithm);
      }
      if t.kid != "" && t.kid !in index {
        return Failure(UnknownKey);
      }
      var store := if t.kid in index then index[t.kid] else keys[0];
      assert HasId(keys, t.kid) ==> exists i :: 0 <= i < |keys| && keys[i].keyId == t.kid && keys[i] == store;
      r := Check(store, t, now);
    }
  }

  ghost predicate HasId(keys: seq<KeyStore>, kid: string) {
    exists i :: 0 <= i < |keys| && keys[i].keyId == kid
  }

  ghost predicate Holds(keys: seq<KeyStore>, kid: string, pair: nat) {
    exists i :: 0 <= i < |keys| && keys[i].keyId == kid && keys[i].pair == pair
  }

  // What the pool accepts: an unexpired RS256 token signed by the pair it holds under the token's kid, or, for a token
  // whose kid is absent, by the current pair.
  ghost predicate Accepts(keys: seq<KeyStore>, t: Token, now: int)
    requires keys != []
  {
    && t.alg == "RS256" && now < t.exp
    && if HasId(keys, t.kid) then Holds(keys, t.kid, t.signer)
       else t.kid == "" && t.signer == keys[0].pair
  }

  // --- what any pool accepts ---

  // The pool as the set of what it holds.
  ghost function Held(keys: seq<KeyStore>): set<(string, nat)> {
    set i | 0 <= i < |keys| :: (keys[i].keyId, keys[i].pair)
  }

  /** Any pool accepts exactly the unexpired RS256 tokens signed by a pair that it holds under the token's kid, and
      those without a kid that are signed by the current pair. */
  lemma {:induction false} AcceptsIsHeld(keys: seq<KeyStore>, t: Token, now: int)
    requires keys != []
    ensures Accepts(keys, t, now) <==>
              && t.alg == "RS256" && now < t.exp
              && ((t.kid, t.signer) in Held(keys)
                  || (t.kid == "" && !HasId(keys, "") && t.signer == keys[0].pair))
  {
    if (t.kid, t.signer) in Held(keys) {
      assert HasId(keys, t.kid);
    }
  }

  /** A token signed by the current key of one pool is accepted by another, whatever happened to the keys in between,
      until it expires if that pool holds the same pair under the same id, private or public, and never otherwise. */
  lemma {:induction false} AcceptedByAnyPoolThatHoldsTheKey(signing: seq<KeyStore>, later: seq<KeyStore>, exp: int,
                                                            now: int)
    requires signing != [] && later != [] && signing[0].keyId != "" && Sign(signing[0], exp).Success?
    ensures Accepts(later, Sign(signing[0], exp).value, now)
            <==> now < exp && (signing[0].keyId, signing[0].pair) in Held(later)
  {
    if (signing[0].keyId, signing[0].pair) in Held(later) {
      assert HasId(later, signing[0].keyId);
    }
  }

  lemma {:induction false} HeldConcat(a: seq<KeyStore>, b: seq<KeyStore>)
    ensures Held(a + b) == Held(a) + Held(b)
  {
    forall held | held in Held(b)
      ensures held in Held(a + b)
    {
      var i :| 0 <= i < |b| && held == (b[i].keyId, b[i].pair);
      assert (a + b)[|a| + i] == b[i];
    }
    forall held | held in Held(a)
      ensures held in Held(a + b)
    {
      var i :| 0 <= i < |a| && held == (a[i].keyId, a[i].pair);
      assert (a + b)[i] == a[i];
    }
  }

  ghost predicate Repeated(keys: seq<KeyStore>, kid: string) {
    exists i, j :: 0 <= i < j < |keys| && keys[i].keyId == keys[j].keyId == kid
  }

  // KeyRotationStore.__init__
  method Create(keys: seq<KeyStore>) returns (r: Result<RotationStore, PoolError>)
    ensures r.Success? <==> keys != [] && Distinct(keys)
    ensures r.Success? ==> r.value.Valid() && r.value.keys == keys
    ensures r.Failure? ==> if keys == [] then r.error == NoKeys
                           else r.error.DuplicateKeyId? && Repeated(keys, r.error.keyId)
  {
    if keys == [] {
      return Failure(NoKeys);
    }
    var seen: set<string> := {};
    for k := 0 to |keys|
      invariant Distinct(keys[..k])
      invariant forall kid :: kid in seen <==> exists i :: 0 <= i < k && keys[i].keyId == kid
    {
      if keys[k].keyId in seen {
        assert Repeated(keys, keys[k].keyId);
        return Failure(DuplicateKeyId(keys[k].keyId));
      }
      seen := seen + {keys[k].keyId};
    }
    assert keys[..|keys|] == keys;
    var index := IndexOf(keys);
    var store := new RotationStore(keys, index);
    return Success(store);
  }

  // The index holds each key under its id and nothing else.
  ghost predicate IsIndex(keys: seq<KeyStore>, index: map<string, KeyStore>) {
    && (forall kid :: kid in index <==> HasId(keys, kid))
    && (forall i :: 0 <= i < |keys| ==> keys[i].keyId in index && index[keys[i].keyId] == keys[i])
  }

  // {k.key_id: k for k in self._keys}
  function IndexOf(keys: seq<KeyStore>): (index: map<string, KeyStore>)
    requires Distinct(keys)
    ensures IsIndex(keys, index)
  {
    if keys == [] then map[]
    else
      var init, last := keys[..|keys| - 1], keys[|keys| - 1];
      var index := IndexOf(init);
      IndexGrows(init, last, index);
      assert keys == init + [last];
      index[last.keyId := last]
  }

  lemma {:induction false} IndexGrows(init: seq<KeyStore>, last: KeyStore, index: map<string, KeyStore>)
    requires Distinct(init + [last]) && IsIndex(init, index)
    ensures IsIndex(init + [last], index[last.keyId := last])
  {
    var keys, after := init + [last], index[last.keyId := last];
    assert keys[..|keys| - 1] == init;
    IdsOfInit(keys);
    forall i | 0 <= i < |keys|
      ensures keys[i].keyId in after && after[keys[i].keyId] == keys[i]
    {
      if i < |init| {
        assert keys[i] == init[i] && keys[i].keyId != keys[|init|].keyId;
      }
    }
  }

  lemma {:induction false} IdsOfInit(keys: seq<KeyStore>)
    requires keys != []
    ensures forall kid :: HasId(keys, kid) <==> HasId(keys[..|keys| - 1], kid) || kid == keys[|keys| - 1].keyId
  {
    var init := keys[..|keys| - 1];
    forall kid | HasId(init, kid)
      ensures HasId(keys, kid)
    {
      var i :| 0 <= i < |init| && init[i].keyId == kid;
      assert keys[i].keyId == kid;
    }
    forall kid | HasId(keys, kid) && kid != keys[|keys| - 1].keyId
      ensures HasId(init, kid)
    {
      var i :| 0 <= i < |keys| && keys[i].keyId == kid;
      assert init[i].keyId == kid;
    }
  }

  // --- from_env ---

  type Environment = map<string, string>

  // PEM parsing and fingerprints, outside the model.
  datatype Loader = Loader(
    privatePem: string -> Option<nat>, publicPem: string -> Option<nat>, fingerprint: nat -> string)

  predicate Blank(c: char) {
    '\t' <= c <= '\r' || '\U{1C}' <= c <= ' '
  }

  function Strip(s: string): string {
    if s != "" && Blank(s[0]) then Strip(s[1..])
    else if s != "" && Blank(s[|s| - 1]) then Strip(s[..|s| - 1])
    else s
  }

  function Variable(env: Environment, name: string): string {
    if name in env then Strip(env[name]) else ""
  }

  function Decimal(n: nat): string {
    if n < 10 then ['0' + n as char] else Decimal(n / 10) + ['0' + (n % 10) as char]
  }

  function PrivateName(i: nat): string { "RSA_OLD_PRIVATE_KEY_PEM_" + Decimal(i) }
  function PublicName(i: nat): string { "RSA_OLD_PUBLIC_KEY_PEM_" + Decimal(i) }
  function IdName(i: nat): string { "RSA_OLD_KEY_ID_" + Decimal(i) }

  predicate MissingAt(env: Environment, i: nat) {
    Variable(env, PrivateName(i)) == "" && Variable(env, PublicName(i)) == ""
  }

  // `key_id or fingerprint`
  function Named(loader: Loader, pair: nat, keyId: string, hasPrivate: bool): KeyStore {
    KeyStore(if keyId != "" then keyId else loader.fingerprint(pair), pair, hasPrivate)
  }

  // The retired key at one index: the private variable is preferred; a PEM that does not load is skipped.
  function RetiredAt(env: Environment, loader: Loader, i: nat): seq<KeyStore> {
    var priv, pub := Variable(env, PrivateName(i)), Variable(env, PublicName(i));
    var pair := if priv != "" then loader.privatePem(priv) else loader.publicPem(pub);
    if pair.None? then [] else [Named(loader, pair.value, Variable(env, IdName(i)), priv != "")]
  }

  // What is found at indices 1 to n - 1, in order.
  function Below(at: nat -> seq<KeyStore>, n: nat): seq<KeyStore> {
    if n <= 1 then [] else Below(at, n - 1) + at(n - 1)
  }

  function Retired(env: Environment, loader: Loader): nat -> seq<KeyStore> {
    (i: nat) => RetiredAt(env, loader, i)
  }

  function Missing(env: Environment): nat -> bool {
    (i: nat) => MissingAt(env, i)
  }

  // --- the scan ends ---

  function Power10(k: nat): nat {
    if k == 0 then 1 else 10 * Power10(k - 1)
  }

  lemma {:induction false} DecimalIsLong(n: nat)
    ensures n < Power10(|Decimal(n)|)
  {
    if n >= 10 {
      DecimalIsLong(n / 10);
    } else {
      assert Power10(1) == 10 * Power10(0);
    }
  }

  lemma {:induction false} Power10Monotone(a: nat, b: nat)
    requires a <= b
    ensures Power10(a) <= Power10(b)
    decreases b
  {
    if a == b {
    } else {
      Power10Monotone(a, b - 1);
    }
  }

  ghost function Longest(names: set<string>): (n: nat)
    ensures forall name :: name in names ==> |name| <= n
  {
    if names == {} then 0
    else
      var name :| name in names;
      var rest := Longest(names - {name});
      if |name| > rest then |name| else rest
  }

  // From this index on no variable of a finite environment can carry the number.
  ghost function Horizon(env: Environment): nat {
    Power10(Longest(env.Keys))
  }

  lemma {:induction false} MissingBeyondHorizon(env: Environment, i: nat)
    requires i >= Horizon(env)
    ensures MissingAt(env, i)
  {
    DecimalIsLong(i);
    if PrivateName(i) in env || PublicName(i) in env {
      Power10Monotone(|Decimal(i)|, Longest(env.Keys));
    }
  }

  // Where the scan stops: the first index from 1 at which neither PEM is set.
  ghost predicate FirstGap(missing: nat -> bool, gap: nat) {
    gap >= 1 && missing(gap) && forall i :: 1 <= i < gap ==> !missing(i)
  }

  lemma {:induction false} OneFirstGap(missing: nat -> bool, a: nat, b: nat)
    requires FirstGap(missing, a) && FirstGap(missing, b)
    ensures a == b
  {
  }

  method Scan(current: KeyStore, missing: nat -> bool, at: nat -> seq<KeyStore>, ghost horizon: nat)
    returns (stores: seq<KeyStore>, gap: nat)
    requires forall i: nat :: i >= horizon ==> missing(i)
    ensures FirstGap(missing, gap) && stores == [current] + Below(at, gap)
  {
    stores := [current];
    gap := 1;
    while true
      invariant gap >= 1 && forall i :: 1 <= i < gap ==> !missing(i)
      invariant stores == [current] + Below(at, gap)
      decreases horizon - gap
    {
      if missing(gap) {
        break;
      }
      stores := stores + at(gap);
      gap := gap + 1;
    }
  }

  function CurrentKey(env: Environment, loader: Loader): Result<KeyStore, PoolError> {
    var pem := Variable(env, "RSA_PRIVATE_KEY_PEM");
    if pem == "" then Failure(CurrentKeyNotSet)
    else if loader.privatePem(pem).None? then Failure(CurrentKeyMalformed)
    else Success(Named(loader, loader.privatePem(pem).value, Variable(env, "RSA_KEY_ID"), true))
  }

  ghost function Pool(env: Environment, loader: Loader, gap: nat): seq<KeyStore>
    requires CurrentKey(env, loader).Success?
  {
    [CurrentKey(env, loader).value] + Below(Retired(env, loader), gap)
  }

  // The keys that the scan makes of an environment.
  ghost predicate PoolOf(env: Environment, loader: Loader, keys: seq<KeyStore>) {
    CurrentKey(env, loader).Success?
    && exists gap :: FirstGap(Missing(env), gap) && keys == Pool(env, loader, gap)
  }

  /** On any finite environment the scan ends, and the pool is the current key followed by the loadable keys of the
      contiguous prefix of indices, in order; it fails exactly if there is no current key or two ids coincide. */
  method FromEnv(env: Environment, loader: Loader) returns (r: Result<RotationStore, PoolError>)
    ensures CurrentKey(env, loader).Failure? ==> r.Failure? && r.error == CurrentKey(env, loader).error
    ensures CurrentKey(env, loader).Success? ==> exists keys :: PoolOf(env, loader, keys) && PoolIs(r, keys)
  {
    var current := CurrentKey(env, loader);
    if current.Failure? {
      return Failure(current.error);
    }
    forall i: nat | i >= Horizon(env)
      ensures Missing(env)(i)
    {
      MissingBeyondHorizon(env, i);
    }
    var stores, gap := Scan(current.value, Missing(env), Retired(env, loader), Horizon(env));
    r := Create(stores);
    assert stores == Pool(env, loader, gap);
    assert PoolOf(env, loader, stores) && PoolIs(r, stores);
  }

  ghost predicate PoolIs(r: Result<RotationStore, PoolError>, keys: seq<KeyStore>) {
    && (r.Success? <==> Distinct(keys))
    && (r.Success? ==> r.value.Valid() && r.value.keys == keys)
  }

  // --- removing a retired key ---

  ghost predicate HeldAt(at: nat -> seq<KeyStore>, j: nat, held: (string, nat)) {
    held in Held(at(j))
  }

  lemma {:induction false} HeldBelow(at: nat -> seq<KeyStore>, n: nat, held: (string, nat))
    ensures held in Held(Below(at, n)) <==> exists j :: 1 <= j < n && HeldAt(at, j, held)
  {
    if n <= 1 {
    } else {
      HeldBelow(at, n - 1, held);
      HeldConcat(Below(at, n - 1), at(n - 1));
      if HeldAt(at, n - 1, held) {
      } else if held in Held(Below(at, n)) {
        assert held in Held(Below(at, n - 1));
      }
    }
  }

  lemma {:induction false} BelowAgrees(at: nat -> seq<KeyStore>, at': nat -> seq<KeyStore>, n: nat)
    requires forall j :: 1 <= j < n ==> at(j) == at'(j)
    ensures Below(at, n) == Below(at', n)
  {
    if n <= 1 {
    } else {
      BelowAgrees(at, at', n - 1);
    }
  }

  lemma {:induction false} DecimalInjective(i: nat, j: nat)
    requires Decimal(i) == Decimal(j)
    ensures i == j
  {
    if i < 10 || j < 10 {
      assert |Decimal(i / 10)| >= 1 && |Decimal(j / 10)| >= 1;
    } else {
      var s, t := Decimal(i / 10), Decimal(j / 10);
      assert Decimal(i)[..|s|] == s && Decimal(j)[..|t|] == t;
      assert Decimal(i)[|s|] == Decimal(j)[|t|];
      DecimalInjective(i / 10, j / 10);
    }
  }

  lemma {:induction false} Numbered(prefix: string, i: nat, j: nat)
    requires prefix + Decimal(i) == prefix + Decimal(j)
    ensures i == j
  {
    assert (prefix + Decimal(i))[|prefix|..] == Decimal(i);
    assert (prefix + Decimal(j))[|prefix|..] == Decimal(j);
    DecimalInjective(i, j);
  }

  function Unset(env: Environment, i: nat): Environment {
    env - {PrivateName(i), PublicName(i)}
  }

  lemma {:induction false} OtherIndexStays(env: Environment, loader: Loader, i: nat, j: nat)
    requires i != j
    ensures RetiredAt(Unset(env, i), loader, j) == RetiredAt(env, loader, j)
    ensures MissingAt(Unset(env, i), j) == MissingAt(env, j)
  {
    if PrivateName(j) == PrivateName(i) {
      Numbered("RSA_OLD_PRIVATE_KEY_PEM_", i, j);
    }
    if PublicName(j) == PublicName(i) {
      Numbered("RSA_OLD_PUBLIC_KEY_PEM_", i, j);
    }
    assert PrivateName(j)[9] == PrivateName(i)[9] == 'R' && PublicName(j)[9] == PublicName(i)[9] == 'U';
    assert IdName(j)[8] == 'K' && PrivateName(i)[8] == PublicName(i)[8] == 'P';
  }

  lemma {:induction false} CurrentKeyStays(env: Environment, loader: Loader, i: nat)
    ensures CurrentKey(Unset(env, i), loader) == CurrentKey(env, loader)
  {
    assert "RSA_PRIVATE_KEY_PEM"[4] == 'P' && "RSA_KEY_ID"[4] == 'K';
    assert PrivateName(i)[4] == PublicName(i)[4] == 'O';
  }

  function Min(a: nat, b: nat): nat {
    if a < b then a else b
  }

  // Unsetting index i makes it the first gap, unless the scan stopped before it already.
  lemma {:induction false} UnsetMakesGap(env: Environment, loader: Loader, i: nat, gap: nat)
    requires i >= 1 && FirstGap(Missing(env), gap)
    ensures FirstGap(Missing(Unset(env, i)), Min(i, gap))
    ensures Below(Retired(Unset(env, i), loader), Min(i, gap)) == Below(Retired(env, loader), Min(i, gap))
  {
    var after := Unset(env, i);
    forall j: nat | j != i
      ensures RetiredAt(after, loader, j) == RetiredAt(env, loader, j) && MissingAt(after, j) == MissingAt(env, j)
    {
      OtherIndexStays(env, loader, i, j);
    }
    assert MissingAt(after, i);
    forall j: nat | 1 <= j < Min(i, gap)
      ensures !Missing(after)(j)
    {
      assert !Missing(env)(j);
    }
    BelowAgrees(Retired(after, loader), Retired(env, loader), Min(i, gap));
  }

  /** A loadable key at index j, found nowhere else, is in the pool exactly if j lies before the first gap. */
  lemma {:induction false} HeldBeforeTheGap(env: Environment, loader: Loader, gap: nat, j: nat, key: KeyStore)
    requires CurrentKey(env, loader).Success? && j >= 1 && RetiredAt(env, loader, j) == [key]
    requires CurrentKey(env, loader).value.keyId != key.keyId
    requires forall other :: 1 <= other < gap && other != j ==>
                               !HeldAt(Retired(env, loader), other, (key.keyId, key.pair))
    ensures (key.keyId, key.pair) in Held(Pool(env, loader, gap)) <==> j < gap
  {
    var held, at := (key.keyId, key.pair), Retired(env, loader);
    var current := CurrentKey(env, loader).value;
    HeldConcat([current], Below(at, gap));
    assert [current][0] == current;
    assert forall i :: 0 <= i < |[current]| ==> [current][i] == current;
    HeldBelow(at, gap, held);
    assert [key][0] == key;
    assert HeldAt(at, j, held);
  }

  lemma {:induction false} PoolPrefix(env: Environment, loader: Loader, a: nat, b: nat)
    requires CurrentKey(env, loader).Success? && a <= b
    ensures Pool(env, loader, a) <= Pool(env, loader, b)
    decreases b
  {
    if a == b {
    } else {
      if b >= 2 {
        PoolPrefix(env, loader, a, b - 1);
      }
    }
  }

  lemma {:induction false} HeldNowhereElse(env: Environment, loader: Loader, gap: nat, j: nat, key: KeyStore,
                                           other: nat)
    requires CurrentKey(env, loader).Success? && Distinct(Pool(env, loader, gap))
    requires 1 <= j < gap && RetiredAt(env, loader, j) == [key]
    ensures CurrentKey(env, loader).value.keyId != key.keyId
    ensures 1 <= other < gap && other != j ==> !HeldAt(Retired(env, loader), other, (key.keyId, key.pair))
  {
    var pool := Pool(env, loader, gap);
    InPoolAt(env, loader, gap, j);
    var at := |Pool(env, loader, j)|;
    assert pool[at] == key && pool[0] == CurrentKey(env, loader).value;
    if 1 <= other < gap && other != j && HeldAt(Retired(env, loader), other, (key.keyId, key.pair)) {
      InPoolAt(env, loader, gap, other);
      var at' := |Pool(env, loader, other)|;
      assert RetiredAt(env, loader, other)[0].keyId == key.keyId;
      assert pool[at'] == RetiredAt(env, loader, other)[0];
      if other < j {
        PoolPrefix(env, loader, other + 1, j);
      } else {
        PoolPrefix(env, loader, j + 1, other);
      }
    }
  }

  // Where the key of one index stands in the pool.
  lemma {:induction false} InPoolAt(env: Environment, loader: Loader, gap: nat, j: nat)
    requires CurrentKey(env, loader).Success? && 1 <= j < gap
    ensures Pool(env, loader, j + 1) == Pool(env, loader, j) + RetiredAt(env, loader, j) <= Pool(env, loader, gap)
  {
    PoolPrefix(env, loader, j + 1, gap);
  }

  lemma {:induction false} UnsettingAtGap(env: Environment, loader: Loader, gap: nat, i: nat, j: nat,
                                                 key: KeyStore, exp: int, now: int)
    requires CurrentKey(env, loader).Success? && FirstGap(Missing(env), gap) && Distinct(Pool(env, loader, gap))
    requires i >= 1 && 1 <= j < gap && RetiredAt(env, loader, j) == [key] && key.keyId != ""
    ensures CurrentKey(Unset(env, i), loader).Success?
    ensures var after, gap' := Unset(env, i), Min(i, gap);
            && FirstGap(Missing(after), gap') && Distinct(Pool(after, loader, gap'))
            && (Accepts(Pool(after, loader, gap'), Token(key.keyId, "RS256", key.pair, exp), now)
                <==> now < exp && j < i)
            && (i == 1 ==> Pool(after, loader, gap') == [CurrentKey(env, loader).value])
  {
    var after, gap' := Unset(env, i), Min(i, gap);
    CurrentKeyStays(env, loader, i);
    UnsetMakesGap(env, loader, i, gap);
    assert Pool(after, loader, gap') == Pool(env, loader, gap');
    PoolPrefix(env, loader, gap', gap);
    forall other | 1 <= other < gap && other != j
      ensures !HeldAt(Retired(env, loader), other, (key.keyId, key.pair))
    {
      HeldNowhereElse(env, loader, gap, j, key, other);
    }
    HeldNowhereElse(env, loader, gap, j, key, j);
    HeldBeforeTheGap(env, loader, gap', j, key);
    var signing := [key.(hasPrivate := true)];
    AcceptedByAnyPoolThatHoldsTheKey(signing, Pool(after, loader, gap'), exp, now);
  }

  // Index j lies before the first gap and its key loads.
  predicate LoadedAt(env: Environment, loader: Loader, j: nat, key: KeyStore) {
    j >= 1 && RetiredAt(env, loader, j) == [key] && forall k :: 1 <= k <= j ==> !Missing(env)(k)
  }

  /** Unsetting the variables of retired key i drops that key and every key behind it: where a pool was loaded from an
      environment, one can be loaded without them, and a token signed by the key at index j of the old pool is accepted
      by the new one, until it expires, exactly if j < i. Unsetting index 1 leaves the current key alone. */
  lemma {:induction false} UnsettingDropsTheRest(env: Environment, loader: Loader, before: seq<KeyStore>,
                                                 after: seq<KeyStore>, i: nat, j: nat, key: KeyStore, exp: int,
                                                 now: int)
    requires PoolOf(env, loader, before) && Distinct(before) && PoolOf(Unset(env, i), loader, after)
    requires i >= 1 && LoadedAt(env, loader, j, key) && key.keyId != ""
    ensures Distinct(after)
    ensures Accepts(after, Token(key.keyId, "RS256", key.pair, exp), now) <==> now < exp && j < i
    ensures i == 1 ==> after == [CurrentKey(env, loader).value]
  {
    var gap :| FirstGap(Missing(env), gap) && before == Pool(env, loader, gap);
    var gap' :| FirstGap(Missing(Unset(env, i)), gap') && after == Pool(Unset(env, i), loader, gap');
    assert j < gap;
    UnsettingAtGap(env, loader, gap, i, j, key, exp, now);
    OneFirstGap(Missing(Unset(env, i)), gap', Min(i, gap));
  }
}
