/** Versioned keys: every ciphertext names the version of its key, and rotation keeps old versions. */
module KeyRotation {
  import opened Prelude
  import opened Decimal
  import Hex

  type Key = Bytes

  /** The cipher, as a pair of functions; the nonce stands for the randomness of sealing. */
  datatype Aead = Aead(seal: (Key, Bytes, Bytes) -> Bytes, open: (Key, Bytes) -> Option<Bytes>)

  /** Opening inverts sealing under the same key. */
  ghost predicate Correct(aead: Aead) {
    forall key, nonce, plain :: aead.open(key, aead.seal(key, nonce, plain)) == Some(plain)
  }

  datatype Manager = Manager(current: Key, versions: map<int, Key>, currentVer: int)

  datatype KeyError = EmptyKey | BadCurrentKey | BadOldKey(version: int)

  /** `NewAESGCMFromHex`: hex of 16, 24 or 32 bytes. */
  function ParseKey(text: string): Option<Key> {
    var key := Hex.Decode(text);
    if key.Some? && (|key.value| == 16 || |key.value| == 24 || |key.value| == 32) then key else None
  }

  /** The smallest version from 1 on that is not taken. */
  ghost predicate IsFirstFree(version: int, versions: map<int, Key>) {
    version >= 1 && version !in versions && forall v | 1 <= v < version :: v in versions
  }

  ghost predicate WellFormed(m: Manager) {
    IsFirstFree(m.currentVer, m.versions) && m.currentVer <= MAX_INT64
  }

  /** The manager of these keys: all of them parsed, and the first free version for the current one. */
  ghost predicate MadeFrom(m: Manager, currentHex: string, oldKeys: map<int, string>) {
    && ParseKey(currentHex) == Some(m.current)
    && m.versions.Keys == oldKeys.Keys && (forall v | v in oldKeys :: ParseKey(oldKeys[v]) == Some(m.versions[v]))
    && IsFirstFree(m.currentVer, m.versions)
  }

  /** Parses every key and searches for the first free version; the search ends because the old keys are finite. */
  method NewKeyManager(currentHex: string, oldKeys: map<int, string>) returns (r: Result<Manager, KeyError>)
    ensures r.Success? <==> ParseKey(currentHex).Some? && forall v | v in oldKeys :: ParseKey(oldKeys[v]).Some?
    ensures r.Success? ==> MadeFrom(r.value, currentHex, oldKeys)
    ensures r.Failure? ==>
              match r.error
              case EmptyKey => currentHex == ""
              case BadCurrentKey => currentHex != "" && ParseKey(currentHex).None?
              case BadOldKey(v) => v in oldKeys && ParseKey(oldKeys[v]).None?
  {
    if currentHex == "" {
      return Failure(EmptyKey);
    }
    var current := ParseKey(currentHex);
    if current.None? {
      return Failure(BadCurrentKey);
    }
    var versions, bad := ParseAll(oldKeys);
    if bad.Some? {
      return Failure(BadOldKey(bad.value));
    }
    var currentVer := FirstFree(versions);
    return Success(Manager(current.value, versions, currentVer));
  }

  /** All keys parsed, or one that does not parse; the map is ranged over in no particular order. */
  method ParseAll(oldKeys: map<int, string>) returns (versions: map<int, Key>, bad: Option<int>)
    ensures bad.Some? ==> bad.value in oldKeys && ParseKey(oldKeys[bad.value]).None?
    ensures bad.None? ==>
            versions.Keys == oldKeys.Keys && forall v | v in oldKeys :: ParseKey(oldKeys[v]) == Some(versions[v])
  {
    versions := map[];
    var todo := oldKeys.Keys;
    while |todo| > 0
      invariant todo <= oldKeys.Keys && versions.Keys == oldKeys.Keys - todo
      invariant forall v | v in versions :: ParseKey(oldKeys[v]) == Some(versions[v])
      decreases |todo|
    {
      ghost var some := Pick(todo);
      assert some in todo;
      var v :| v in todo;
      var key := ParseKey(oldKeys[v]);
      if key.None? {
        return versions, Some(v);
      }
      versions := versions[v := key.value];
      todo := todo - {v};
    }
    NoElements(todo);
    return versions, None;
  }

  method FirstFree(versions: map<int, Key>) returns (version: int)
    ensures IsFirstFree(version, versions)
  {
    version := 1;
    ghost var above := versions.Keys;
    while version in versions
      invariant version >= 1 && forall v | 1 <= v < version :: v in versions
      invariant forall v | v in versions && v >= version :: v in above
      decreases |above|
    {
      above := above - {version};
      version := version + 1;
    }
  }

  function KeyForVersion(m: Manager, version: int): Option<Key> {
    if version == m.currentVer then Some(m.current)
    else if version in m.versions then Some(m.versions[version])
    else None
  }

  /** `v%d:` and the hex of the sealed text. */
  function EncryptString(aead: Aead, m: Manager, nonce: Bytes, plain: Bytes): string {
    "v" + Padded(m.currentVer, 0) + ":" + Hex.Encode(aead.seal(m.current, nonce, plain))
  }

  function FirstColon(s: string): nat {
    if s == "" || s[0] == ':' then 0 else 1 + FirstColon(s[1..])
  }

  /** The version and the rest after the first colon, if the text starts with `v` and a number. */
  function ParseVersion(s: string): Option<(int, string)> {
    if s == "" || s[0] != 'v' then None
    else
      var colon := FirstColon(s[1..]);
      if colon >= |s[1..]| then None
      else
        var version := Atoi(s[1..][..colon]);
        if version.None? then None else Some((version.value, s[1..][colon + 1..]))
  }

  function DecryptWith(aead: Aead, key: Key, text: string): Option<Bytes> {
    var sealed := Hex.Decode(text);
    if sealed.None? then None else aead.open(key, sealed.value)
  }

  /** An unknown version falls back to the current key, on the text after the prefix. */
  function DecryptString(aead: Aead, m: Manager, text: string): Option<Bytes> {
    var parsed := ParseVersion(text);
    if parsed.None? then DecryptWith(aead, m.current, text)
    else
      var key := KeyForVersion(m, parsed.value.0);
      DecryptWith(aead, if key.Some? then key.value else m.current, parsed.value.1)
  }

  // ---- The version prefix -----------------------------------------------------------

  lemma {:induction false} ColonAfterDigits(digits: string, rest: string)
    requires AllDigits(digits)
    ensures FirstColon(digits + ":" + rest) == |digits|
  {
    var s := digits + ":" + rest;
    if digits != "" {
      assert IsDigit(digits[0]) && s[0] == digits[0];
      assert s[1..] == digits[1..] + ":" + rest;
      ColonAfterDigits(digits[1..], rest);
    }
  }

  /** Parsing undoes the `v%d:` prefix for every version a 64-bit int can hold. */
  lemma PrefixRoundTrip(version: nat, rest: string)
    requires version <= MAX_INT64
    ensures ParseVersion("v" + Padded(version, 0) + ":" + rest) == Some((version, rest))
  {
    var digits := Padded(version, 0);
    assert digits == Digits(version);
    AtoiOfDigits(version);
    ColonAfterDigits(digits, rest);
    var s := "v" + digits + ":" + rest;
    assert s[1..] == digits + ":" + rest;
    assert s[1..][..|digits|] == digits && s[1..][|digits| + 1..] == rest;
  }

  /** What the key another manager selects makes of a ciphertext. */
  function SelectedKey(m: Manager, version: int): Key {
    if KeyForVersion(m, version).Some? then KeyForVersion(m, version).value else m.current
  }

  lemma DecryptSelects(aead: Aead, m: Manager, reader: Manager, nonce: Bytes, plain: Bytes)
    requires WellFormed(m)
    ensures DecryptString(aead, reader, EncryptString(aead, m, nonce, plain)) ==
            aead.open(SelectedKey(reader, m.currentVer), aead.seal(m.current, nonce, plain))
  {
    var sealed := aead.seal(m.current, nonce, plain);
    PrefixRoundTrip(m.currentVer, Hex.Encode(sealed));
    Hex.DecodeOfEncode(sealed);
  }

  /** A cipher that puts the key in front of the text: correct, and it tells all keys apart. */
  function KeyedPrefix(): Aead {
    Aead((key: Key, nonce: Bytes, plain: Bytes) => key + plain,
         (key: Key, sealed: Bytes) => if key <= sealed then Some(sealed[|key|..]) else None)
  }

  /** One manager reads everything another writes, whatever the cipher, exactly when it selects the writer's key. */
  lemma ReadsIff(m: Manager, reader: Manager)
    requires WellFormed(m)
    ensures (forall aead, nonce, plain | Correct(aead) ::
               DecryptString(aead, reader, EncryptString(aead, m, nonce, plain)) == Some(plain))
            <==> SelectedKey(reader, m.currentVer) == m.current
  {
    forall aead, nonce, plain { DecryptSelects(aead, m, reader, nonce, plain); }
    var cipher, other := KeyedPrefix(), SelectedKey(reader, m.currentVer);
    assert Correct(cipher) by {
      forall key: Key, nonce: Bytes, plain: Bytes
        ensures cipher.open(key, cipher.seal(key, nonce, plain)) == Some(plain)
      {
        assert (key + plain)[|key|..] == plain;
      }
    }
    var sealed := cipher.seal(m.current, [], []);
    assert sealed == m.current;
    if cipher.open(other, sealed) == Some([]) {
      assert other <= m.current && m.current[|other|..] == [];
    }
    assert DecryptString(cipher, reader, EncryptString(cipher, m, [], [])) == Some([]) ==> other == m.current;
  }

  // ---- Keys and texts as they come ---------------------------------------------------------

  /** A key is read back from its hex exactly when it has 16, 24 or 32 bytes. */
  lemma KeyParsesIff(key: Key)
    ensures ParseKey(Hex.Encode(key)) == if |key| in {16, 24, 32} then Some(key) else None
  {
    Hex.DecodeOfEncode(key);
  }

  /** Hex starts with a digit or a letter up to f, so it is never taken for a text with a version. */
  lemma HexHasNoVersion(data: Bytes)
    ensures ParseVersion(Hex.Encode(data)) == None
  {
    if data != [] {
      assert Hex.Encode(data)[0] == Hex.HexChar(data[0] as int / 16);
    }
  }

  /** A text sealed without the version prefix is read by every manager that has its key as the current one. */
  lemma PlainHexDecrypts(aead: Aead, m: Manager, nonce: Bytes, plain: Bytes)
    requires Correct(aead)
    ensures DecryptString(aead, m, Hex.Encode(aead.seal(m.current, nonce, plain))) == Some(plain)
  {
    HexHasNoVersion(aead.seal(m.current, nonce, plain));
    Hex.DecodeOfEncode(aead.seal(m.current, nonce, plain));
  }

  /** The first version reads `v1:`. */
  lemma FirstPrefix(aead: Aead, m: Manager, nonce: Bytes, plain: Bytes)
    requires m.currentVer == 1
    ensures EncryptString(aead, m, nonce, plain) == "v1:" + Hex.Encode(aead.seal(m.current, nonce, plain))
  {
    assert Padded(1, 0) == Digits(1) == "1";
  }

  // ---- Chains of managers ---------------------------------------------------------------

  /** Rotation: the next manager keeps all stored keys and files the current one under its version. */
  ghost predicate Rotates(m: Manager, next: Manager) {
    && m.currentVer in next.versions && next.versions[m.currentVer] == m.current
    && forall v | v in m.versions :: v in next.versions && next.versions[v] == m.versions[v]
  }

  ghost predicate Chain(managers: seq<Manager>) {
    && (forall i | 0 <= i < |managers| :: WellFormed(managers[i]))
    && (forall i | 0 <= i < |managers| - 1 :: Rotates(managers[i], managers[i + 1]))
  }

  lemma {:induction false} KeysSurvive(managers: seq<Manager>, i: nat, j: nat)
    requires Chain(managers) && i < j < |managers|
    ensures managers[i].currentVer in managers[j].versions
    ensures managers[j].versions[managers[i].currentVer] == managers[i].current
    decreases j
  {
    assert Rotates(managers[j - 1], managers[j]);
    if i < j - 1 {
      KeysSurvive(managers, i, j - 1);
    }
  }

  /** Along any chain, whatever an earlier manager encrypted, every later one decrypts to its plaintext. */
  lemma ChainDecrypts(aead: Aead, managers: seq<Manager>, i: nat, j: nat, nonce: Bytes, plain: Bytes)
    requires Correct(aead) && Chain(managers) && i <= j < |managers|
    ensures DecryptString(aead, managers[j], EncryptString(aead, managers[i], nonce, plain)) == Some(plain)
  {
    if i < j {
      KeysSurvive(managers, i, j);
    }
    DecryptSelects(aead, managers[i], managers[j], nonce, plain);
  }

  lemma {:induction false} HoldsRange(s: set<int>, n: nat)
    requires forall v | 1 <= v <= n :: v in s
    ensures |s| >= n
  {
    if n > 0 {
      HoldsRange(s - {n}, n - 1);
    }
  }

  /** The search passes at most every stored version, so the version found fits into an int. */
  lemma FirstFreeIsSmall(m: Manager)
    requires IsFirstFree(m.currentVer, m.versions) && |m.versions| < MAX_INT64
    ensures WellFormed(m)
  {
    HoldsRange(m.versions.Keys, m.currentVer - 1);
    assert |m.versions.Keys| == |m.versions|;
  }

  /** Building the next manager from all old keys and the current one under its version is a rotation. */
  lemma RebuildingRotates(m: Manager, currentHex: string, oldKeys: map<int, string>, next: Manager, nextHex: string)
    requires MadeFrom(m, currentHex, oldKeys) && MadeFrom(next, nextHex, oldKeys[m.currentVer := currentHex])
    ensures Rotates(m, next)
  {
    assert forall v | v in m.versions :: v in oldKeys && v != m.currentVer;
  }

  /** Every manager is built from its key and all keys before it, each under the version it had. */
  ghost predicate Rebuilt(managers: seq<Manager>, hexes: seq<string>, oldKeys: seq<map<int, string>>) {
    && |managers| == |hexes| == |oldKeys|
    && (forall i | 0 <= i < |managers| ::
          MadeFrom(managers[i], hexes[i], oldKeys[i]) && |managers[i].versions| < MAX_INT64)
    && (forall i | 0 <= i < |managers| - 1 :: oldKeys[i + 1] == oldKeys[i][managers[i].currentVer := hexes[i]])
  }

  /** Managers rebuilt key after key through NewKeyManager decrypt everything their predecessors encrypted. */
  lemma RebuiltManagersDecrypt(aead: Aead, managers: seq<Manager>, hexes: seq<string>, oldKeys: seq<map<int, string>>,
                               i: nat, j: nat, nonce: Bytes, plain: Bytes)
    requires Correct(aead) && Rebuilt(managers, hexes, oldKeys) && i <= j < |managers|
    ensures Chain(managers)
    ensures DecryptString(aead, managers[j], EncryptString(aead, managers[i], nonce, plain)) == Some(plain)
  {
    forall k | 0 <= k < |managers| ensures WellFormed(managers[k]) {
      FirstFreeIsSmall(managers[k]);
    }
    forall k | 0 <= k < |managers| - 1 ensures Rotates(managers[k], managers[k + 1]) {
      RebuildingRotates(managers[k], hexes[k], oldKeys[k], managers[k + 1], hexes[k + 1]);
    }
    ChainDecrypts(aead, managers, i, j, nonce, plain);
  }

  /**
   * Dropping a stored version frees its number: the next current key takes it over, and old texts select
   * the wrong key.
   */
  lemma DroppedVersionIsReused(k0: Key, k1: Key, k2: Key)
    requires k0 != k2
    ensures var m0, m1, m2 := Manager(k0, map[], 1), Manager(k1, map[1 := k0], 2), Manager(k2, map[2 := k1], 1);
            && WellFormed(m0) && WellFormed(m1) && WellFormed(m2) && Rotates(m0, m1)
            && m1.currentVer in m2.versions && m2.versions[m1.currentVer] == m1.current
            && SelectedKey(m2, m0.currentVer) == k2 != m0.current
  {
  }
}
