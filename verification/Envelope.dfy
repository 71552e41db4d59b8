/**
 Envelope encryption with an ideal cipher: a sealed blob opens only under the
 key and the additional data it was sealed with, and key derivation is
 injective in its root and its label.
 */
module Envelopes {
  import opened Wrappers
  import opened Encoding
  import Gf = Field

  type Material = seq<Gf.Byte>

  datatype Key =
    | Derived(root: Material, purpose: Text)
    | DataKey(material: nat)

  datatype Payload = KeyBytes(key: Key) | Bytes(data: Text)

  // Blank is the empty blob that destruction leaves behind.
  datatype Blob = Blank | Box(key: Key, nonce: nat, aad: Text, payload: Payload)

  datatype Envelope = Envelope(kekVersion: int, wrappedDek: Blob, ciphertext: Blob)

  datatype CipherError = KekVersion | Decrypt | BadLocation(cause: EncodingError) | LabelTooLong | StoreSealed

  function EncodeLocation(aad: AAD): Result<Text, CipherError> {
    var encoded := Encode(aad);
    if encoded.Success? then Success(encoded.value) else Failure(BadLocation(encoded.error))
  }

  function OpenWith(key: Key, blob: Blob, aad: Text): Result<Payload, CipherError> {
    if blob.Box? && blob.key == key && blob.aad == aad then Success(blob.payload) else Failure(Decrypt)
  }

  // What opens under a key of this kind but is not itself a key is refused.
  function UnwrapDek(kek: Key, wrapped: Blob, aad: Text): Result<Key, CipherError> {
    var payload :- OpenWith(kek, wrapped, aad);
    if payload.KeyBytes? then Success(payload.key) else Failure(Decrypt)
  }

  function OpenData(dek: Key, ciphertext: Blob, aad: Text): Result<Text, CipherError> {
    var payload :- OpenWith(dek, ciphertext, aad);
    if payload.Bytes? then Success(payload.data) else Failure(Decrypt)
  }

  // dek and the nonces are the random bytes of one call.
  datatype Random = Random(dek: nat, nonce: nat, wrapNonce: nat)

  function Seal(kek: Key, kekVersion: int, plaintext: Text, aad: AAD, random: Random): Result<Envelope, CipherError> {
    if kekVersion < 1 then Failure(KekVersion)
    else
      var encoded :- EncodeLocation(aad);
      var dek := DataKey(random.dek);
      Success(Envelope(kekVersion,
                  Box(kek, random.wrapNonce, encoded, KeyBytes(dek)),
                  Box(dek, random.nonce, encoded, Bytes(plaintext))))
  }

  function Open(kek: Key, envelope: Envelope, aad: AAD): Result<Text, CipherError> {
    var encoded :- EncodeLocation(aad);
    var dek :- UnwrapDek(kek, envelope.wrappedDek, encoded);
    OpenData(dek, envelope.ciphertext, encoded)
  }

  function Rewrap(current: Key, next: Key, nextVersion: int, envelope: Envelope, aad: AAD, nonce: nat): Result<Envelope, CipherError> {
    if nextVersion < 1 then Failure(KekVersion)
    else
      var encoded :- EncodeLocation(aad);
      var dek :- UnwrapDek(current, envelope.wrappedDek, encoded);
      Success(Envelope(nextVersion, Box(next, nonce, encoded, KeyBytes(dek)), envelope.ciphertext))
  }

  // A sealed envelope opens to what was sealed, and under its own key and
  // location only.
  lemma OpensOnlyWhereSealed(kek: Key, version: int, plaintext: Text, aad: AAD, random: Random, kek': Key, aad': AAD)
    requires Seal(kek, version, plaintext, aad, random).Success?
    ensures var result := Open(kek', Seal(kek, version, plaintext, aad, random).value, aad');
      if kek' == kek && aad' == aad then result == Success(plaintext) else result.Failure?
  {
    if Encode(aad') == Encode(aad) {
      EncodeInjective(aad, aad');
    }
  }

  // Rewrapping moves an envelope to another key and changes nothing it holds.
  lemma RewrapKeepsMeaning(current: Key, next: Key, version: int, envelope: Envelope, aad: AAD, nonce: nat)
    requires Rewrap(current, next, version, envelope, aad, nonce).Success?
    ensures var rewrapped := Rewrap(current, next, version, envelope, aad, nonce).value;
      && Open(next, rewrapped, aad) == Open(current, envelope, aad)
      && forall other: Key, elsewhere: AAD :: other != next || elsewhere != aad ==> Open(other, rewrapped, elsewhere).Failure?
  {
    var rewrapped := Rewrap(current, next, version, envelope, aad, nonce).value;
    forall other: Key, elsewhere: AAD | other != next || elsewhere != aad
      ensures Open(other, rewrapped, elsewhere).Failure?
    {
      if Encode(elsewhere) == Encode(aad) {
        EncodeInjective(aad, elsewhere);
      }
    }
  }
}

/** What the seal manager lends to the stores: sealing, opening and rewrapping by tenant. */
module Cipher {
  import opened Wrappers
  import opened Encoding
  import opened Envelopes

  const INITIAL_KEK_VERSION := 1

  // The part of the manager that its cipher reads under the read lock.
  datatype Keys = Keys(root: Option<Material>, kekVersion: int)

  function DeriveKek(root: Option<Material>, tenant: Text, version: int): Result<Key, CipherError> {
    if root.None? then Failure(StoreSealed)
    else if version < INITIAL_KEK_VERSION then Failure(KekVersion)
    else
      var purpose := KekLabel(tenant, version);
      if purpose.Success? then Success(Derived(root.value, purpose.value)) else Failure(LabelTooLong)
  }

  function SealFor(keys: Keys, tenant: Text, plaintext: Text, aad: AAD, random: Random): Result<Envelope, CipherError> {
    var kek :- DeriveKek(keys.root, tenant, keys.kekVersion);
    Seal(kek, keys.kekVersion, plaintext, aad, random)
  }

  function OpenFor(root: Option<Material>, tenant: Text, envelope: Envelope, aad: AAD): Result<Text, CipherError> {
    if envelope.kekVersion < 1 then Failure(Decrypt)
    else
      var kek :- DeriveKek(root, tenant, envelope.kekVersion);
      Open(kek, envelope, aad)
  }

  datatype Rewrapped = Rewrapped(envelope: Envelope, changed: bool)

  function RewrapFor(keys: Keys, tenant: Text, envelope: Envelope, aad: AAD, nonce: nat): Result<Rewrapped, CipherError> {
    if envelope.kekVersion < INITIAL_KEK_VERSION then Failure(Decrypt)
    else if keys.root.None? then Failure(StoreSealed)
    else if envelope.kekVersion > keys.kekVersion then Failure(KekVersion)
    else if envelope.kekVersion == keys.kekVersion then Success(Rewrapped(envelope, false))
    else
      var current :- DeriveKek(keys.root, tenant, envelope.kekVersion);
      var next :- DeriveKek(keys.root, tenant, keys.kekVersion);
      var moved :- Rewrap(current, next, keys.kekVersion, envelope, aad, nonce);
      Success(Rewrapped(moved, true))
  }

  // An envelope opens only for the root, tenant and location it was sealed for.
  lemma OpensOnlyForItsTenant(keys: Keys, tenant: Text, plaintext: Text, aad: AAD, random: Random,
                              root': Option<Material>, tenant': Text, aad': AAD)
    requires SealFor(keys, tenant, plaintext, aad, random).Success?
    ensures var result := OpenFor(root', tenant', SealFor(keys, tenant, plaintext, aad, random).value, aad');
      if root' == keys.root && tenant' == tenant && aad' == aad then result == Success(plaintext) else result.Failure?
  {
    var sealed := SealFor(keys, tenant, plaintext, aad, random).value;
    var kek := DeriveKek(keys.root, tenant, keys.kekVersion).value;
    if DeriveKek(root', tenant', sealed.kekVersion).Success? {
      var kek' := DeriveKek(root', tenant', sealed.kekVersion).value;
      OpensOnlyWhereSealed(kek, keys.kekVersion, plaintext, aad, random, kek', aad');
      if kek' == kek {
        KekLabelInjective(tenant, keys.kekVersion, tenant', keys.kekVersion);
      }
    }
  }

  // An altered key version never makes an envelope open.
  lemma OpensOnlyAtItsVersion(keys: Keys, tenant: Text, plaintext: Text, aad: AAD, random: Random, version: int)
    requires SealFor(keys, tenant, plaintext, aad, random).Success? && version != keys.kekVersion
    ensures OpenFor(keys.root, tenant, SealFor(keys, tenant, plaintext, aad, random).value.(kekVersion := version), aad).Failure?
  {
    if version >= 1 && KekLabel(tenant, version) == KekLabel(tenant, keys.kekVersion) {
      KekLabelInjective(tenant, keys.kekVersion, tenant, version);
    }
  }

  lemma SealVersion(keys: Keys, tenant: Text, plaintext: Text, aad: AAD, random: Random)
    requires SealFor(keys, tenant, plaintext, aad, random).Success?
    ensures keys.root.Some? && SealFor(keys, tenant, plaintext, aad, random).value.kekVersion == keys.kekVersion
  {}

  // What a rewrap returns is at the current version, opens to the same and
  // holds the same ciphertext.
  lemma RewrapForKeepsMeaning(keys: Keys, tenant: Text, envelope: Envelope, aad: AAD, nonce: nat)
    requires RewrapFor(keys, tenant, envelope, aad, nonce).Success?
    ensures var r := RewrapFor(keys, tenant, envelope, aad, nonce).value;
      && r.envelope.kekVersion == keys.kekVersion
      && r.envelope.ciphertext == envelope.ciphertext
      && (r.changed <==> r.envelope.kekVersion != envelope.kekVersion)
      && OpenFor(keys.root, tenant, r.envelope, aad) == OpenFor(keys.root, tenant, envelope, aad)
  {
    if envelope.kekVersion < keys.kekVersion {
      var current := DeriveKek(keys.root, tenant, envelope.kekVersion).value;
      var next := DeriveKek(keys.root, tenant, keys.kekVersion).value;
      RewrapKeepsMeaning(current, next, keys.kekVersion, envelope, aad, nonce);
    }
  }

  lemma NotTooNew(keys: Keys, tenant: Text, envelope: Envelope, aad: AAD, nonce: nat)
    requires INITIAL_KEK_VERSION <= envelope.kekVersion <= keys.kekVersion
    ensures RewrapFor(keys, tenant, envelope, aad, nonce) != Failure(KekVersion)
  {}

  // The three refusals that come before any key is used, and their order.
  lemma RewrapForRefusals(keys: Keys, tenant: Text, envelope: Envelope, aad: AAD, nonce: nat)
    ensures var r := RewrapFor(keys, tenant, envelope, aad, nonce);
      && (envelope.kekVersion < 1 ==> r == Failure(Decrypt))
      && (r == Failure(StoreSealed) <==> envelope.kekVersion >= 1 && keys.root.None?)
      && (r == Failure(KekVersion) <==> envelope.kekVersion >= 1 && keys.root.Some? && envelope.kekVersion > keys.kekVersion)
  {}

  // An envelope the store can read is rewrapped unless it is too new.
  lemma RewrapForSucceeds(keys: Keys, tenant: Text, envelope: Envelope, aad: AAD, nonce: nat)
    requires OpenFor(keys.root, tenant, envelope, aad).Success?
    requires DeriveKek(keys.root, tenant, keys.kekVersion).Success?
    ensures RewrapFor(keys, tenant, envelope, aad, nonce).Success? <==> envelope.kekVersion <= keys.kekVersion
  {}

  // A tenant name within its limit always has a label.
  lemma DeriveKekSucceeds(root: Material, tenant: Text, version: Int64)
    requires version >= INITIAL_KEK_VERSION && |tenant| <= MAX_FIELD_LEN
    ensures DeriveKek(Some(root), tenant, version).Success?
  {
    LabelIntShort(version);
    var parts := [KEK_LABEL, tenant, LabelInt(version)];
    assert Encodable(parts);
  }

  // A tenant for which an envelope opens has a key at every version.
  lemma DeriveKekLater(root: Material, tenant: Text, envelope: Envelope, aad: AAD, version: Int64)
    requires OpenFor(Some(root), tenant, envelope, aad).Success? && version >= INITIAL_KEK_VERSION
    ensures DeriveKek(Some(root), tenant, version).Success?
  {
    hide Open;
    var parts := [KEK_LABEL, tenant, LabelInt(envelope.kekVersion)];
    assert Encodable(parts) && parts[1] == tenant;
    DeriveKekSucceeds(root, tenant, version);
  }
}
