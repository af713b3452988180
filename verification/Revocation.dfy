/** `TokenRevocationService`: two revocation lists kept in Redis keys that expire. Times are
    milliseconds of one clock, and a key lives while the clock is before its expiry. */
module Revocation {

  const MERCHANT_REVOCATION_TTL_SECONDS := 7 * 24 * 3600

  type MerchantId = string
  type TokenId = nat

  /** A "revoked-before" key: the second written into it, and when it expires. */
  datatype Marker = Marker(second: nat, expiresAt: nat)

  /** The "revoked:jti:" keys with their expiry, and the "revoked-before:" keys. */
  datatype Store = Store(tokens: map<TokenId, nat>, markers: map<MerchantId, Marker>)

  function Seconds(now: nat): nat { now / 1000 }

  function AfterRevoke(s: Store, now: nat, jti: TokenId, remainingSeconds: int): Store {
    if remainingSeconds <= 0 then s
    else s.(tokens := s.tokens[jti := now + remainingSeconds * 1000])
  }

  predicate IsTokenRevoked(s: Store, now: nat, jti: TokenId) {
    jti in s.tokens && now < s.tokens[jti]
  }

  function AfterRevokeAll(s: Store, now: nat, merchant: MerchantId): Store {
    s.(markers := s.markers[merchant := Marker(Seconds(now), now + MERCHANT_REVOCATION_TTL_SECONDS * 1000)])
  }

  predicate IsMerchantTokenRevoked(s: Store, now: nat, merchant: MerchantId, iat: nat) {
    merchant in s.markers && now < s.markers[merchant].expiresAt && iat <= s.markers[merchant].second
  }

  /** Clearing expired keys, as Redis does on its own, is never noticed. */
  function Purged(s: Store, now: nat): Store {
    Store(map j | j in s.tokens && now < s.tokens[j] :: s.tokens[j],
          map m | m in s.markers && now < s.markers[m].expiresAt :: s.markers[m])
  }

  lemma PurgingIsInvisible(s: Store, now: nat, later: nat, jti: TokenId, merchant: MerchantId, iat: nat)
    requires now <= later
    ensures IsTokenRevoked(Purged(s, now), later, jti) == IsTokenRevoked(s, later, jti)
    ensures IsMerchantTokenRevoked(Purged(s, now), later, merchant, iat)
         == IsMerchantTokenRevoked(s, later, merchant, iat)
  {
  }

  /** A token revoked for what is left of its life, in whole seconds, stays revoked until it
      expires: rounding the clock down rounds the remaining life up. */
  lemma RevokedUntilExpiry(s: Store, now: nat, later: nat, jti: TokenId, exp: nat)
    requires now <= later < exp * 1000
    ensures IsTokenRevoked(AfterRevoke(s, now, jti, exp - Seconds(now)), later, jti)
  {
    assert Seconds(now) * 1000 <= now;
  }

  class TokenRevocationService {
    var store: Store

    constructor ()
      ensures store == Store(map[], map[])
    {
      store := Store(map[], map[]);
    }

    method RevokeToken(now: nat, jti: TokenId, remainingLifetimeSeconds: int)
      modifies this
      ensures store == AfterRevoke(old(store), now, jti, remainingLifetimeSeconds)
      ensures remainingLifetimeSeconds > 0 ==>
                forall t: nat | now <= t :: IsTokenRevoked(store, t, jti) <==> t < now + remainingLifetimeSeconds * 1000
    {
      if remainingLifetimeSeconds <= 0 { return; }
      store := store.(tokens := store.tokens[jti := now + remainingLifetimeSeconds * 1000]);
    }

    method RevokeAllForMerchant(now: nat, merchantId: MerchantId)
      modifies this
      ensures store == AfterRevokeAll(old(store), now, merchantId)
      ensures forall t: nat, iat: nat | now <= t ::
                IsMerchantTokenRevoked(store, t, merchantId, iat)
                <==> iat * 1000 <= now && t < now + 604800 * 1000
    {
      var nowSeconds := now / 1000;
      var marker := Marker(nowSeconds, now + MERCHANT_REVOCATION_TTL_SECONDS * 1000);
      store := store.(markers := store.markers[merchantId := marker]);
    }
  }
}
