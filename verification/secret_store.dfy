/** The server's secret store of `yeet-server/src/secret_store.rs`.

    Secrets are kept as ciphertexts under the server's own age key, together
    with a per-secret list of the hosts allowed to fetch them. Handing a secret
    to a host means decrypting it with the store key and re-encrypting it for
    the host's recipient key. The age primitives come in as the `Age` record:
    the model fixes how the store uses them, not how they work. */
module SecretStore {
  import opened Wrappers

  /** An age identity (private key). */
  type Identity = string

  /** An age recipient (public key). */
  type Recipient = string

  /** The age primitives: the public half of an identity, and decryption and
      encryption, each of which may fail. */
  datatype Age = Age(
    toPublic: Identity -> Recipient,
    decrypt: (Identity, Bytes) -> Option<Bytes>,
    encrypt: (Recipient, Bytes) -> Option<Bytes>)

  /** Encrypting for an identity's public half and decrypting with the identity
      gives the plaintext back. */
  ghost predicate Sound(age: Age) {
    forall id: Identity, p: Bytes, c: Bytes
      {:trigger age.encrypt(age.toPublic(id), p), age.decrypt(id, c)}
      :: age.encrypt(age.toPublic(id), p) == Some(c) ==> age.decrypt(id, c) == Some(p)
  }

  predicate Decryptable(age: Age, key: Identity, bytes: Bytes) {
    age.decrypt(key, bytes).Some?
  }

  datatype StoreError = DecryptionError | EncryptError

  /** secret name -> ciphertext, and secret name -> hosts allowed to fetch it. */
  datatype Store = Store(secrets: map<string, Bytes>, acl: map<string, seq<string>>)

  /** `SecretStore::new`: no secrets and no lists. */
  function New(): (st: Store)
    ensures st.secrets == map[] && st.acl == map[]
  {
    Store(map[], map[])
  }

  /** The hosts listed for `secret`; empty when it has no entry. */
  function AclOf(st: Store, secret: string): seq<string> {
    if secret in st.acl then st.acl[secret] else []
  }

  /** The access test at the head of `get_secret_for`. */
  predicate Authorised(st: Store, secret: string, host: string) {
    secret in st.acl && host in st.acl[secret]
  }

  /** `Vec::retain(|h| h != host)`: every copy of `host` goes, every other entry stays. */
  function Without(hosts: seq<string>, host: string): (r: seq<string>)
    ensures host !in r
    ensures forall x :: x != host ==> multiset(r)[x] == multiset(hosts)[x]
  {
    if |hosts| == 0 then []
    else
      assert hosts == [hosts[0]] + hosts[1..];
      (if hosts[0] == host then [] else [hosts[0]]) + Without(hosts[1..], host)
  }

  /** Exactly the copies of `host` are dropped. */
  lemma {:induction false} WithoutLength(hosts: seq<string>, host: string)
    ensures |Without(hosts, host)| == |hosts| - multiset(hosts)[host]
  {
    if |hosts| > 0 {
      assert hosts == [hosts[0]] + hosts[1..];
      WithoutLength(hosts[1..], host);
    }
  }

  /** `retain` keeps the survivors in their original order. */
  lemma {:induction false} WithoutAppend(a: seq<string>, b: seq<string>, host: string)
    ensures Without(a + b, host) == Without(a, host) + Without(b, host)
  {
    if |a| > 0 {
      var x, rest := a[0], a[1..];
      var head: seq<string> := if x == host then [] else [x];
      assert Without(a + b, host) == head + Without(rest + b, host) by {
        assert a + b == [x] + (rest + b);
        WithoutCons(x, rest + b, host);
      }
      assert Without(a, host) == head + Without(rest, host) by {
        assert a == [x] + rest;
        WithoutCons(x, rest, host);
      }
      WithoutAppend(rest, b, host);
      assert head + (Without(rest, host) + Without(b, host)) == (head + Without(rest, host)) + Without(b, host);
    } else {
      assert a + b == b;
    }
  }

  lemma WithoutCons(x: string, rest: seq<string>, host: string)
    ensures Without([x] + rest, host) == (if x == host then [] else [x]) + Without(rest, host)
  {
    assert ([x] + rest)[0] == x;
    assert ([x] + rest)[1..] == rest;
  }

  /** The in-place rename of `rename_host` on one list: each `current` becomes `renamed`. */
  function Replace(hosts: seq<string>, current: string, renamed: string): (r: seq<string>)
    ensures |r| == |hosts|
    ensures forall i :: 0 <= i < |r| ==> r[i] == (if hosts[i] == current then renamed else hosts[i])
  {
    if |hosts| == 0 then []
    else [if hosts[0] == current then renamed else hosts[0]] + Replace(hosts[1..], current, renamed)
  }

  /** `add_secret`: accepts `secret` only if the store key decrypts it, then stores
      it under `name`, replacing an earlier ciphertext. The ACL is not touched. */
  function AddSecret(st: Store, name: string, secret: Bytes, storeKey: Identity, age: Age): (r: Result<Store, StoreError>)
    ensures r.Err? <==> !Decryptable(age, storeKey, secret)
    ensures r.Err? ==> r.error == DecryptionError
    ensures r.Ok? ==> r.value.secrets.Keys == st.secrets.Keys + {name} && r.value.secrets[name] == secret
    ensures r.Ok? ==> forall n :: n in st.secrets && n != name ==> r.value.secrets[n] == st.secrets[n]
    ensures r.Ok? ==> r.value.acl == st.acl
  {
    if !Decryptable(age, storeKey, secret) then Err(DecryptionError)
    else Ok(st.(secrets := st.secrets[name := secret]))
  }

  /** `get_secret_for`: nothing unless `host` is on the secret's list and the secret
      exists; otherwise the stored plaintext re-encrypted for `recipient`. */
  function GetSecretFor(st: Store, name: string, storeKey: Identity, host: string, recipient: Recipient, age: Age)
    : (r: Result<Option<Bytes>, StoreError>)
    ensures !Authorised(st, name, host) || name !in st.secrets ==> r == Ok(None)
    ensures r.Ok? && r.value.Some? ==>
      && Authorised(st, name, host) && name in st.secrets
      && exists p :: age.decrypt(storeKey, st.secrets[name]) == Some(p) && age.encrypt(recipient, p) == Some(r.value.value)
    ensures r == Err(DecryptionError) <==>
      Authorised(st, name, host) && name in st.secrets && !Decryptable(age, storeKey, st.secrets[name])
    ensures r == Err(EncryptError) <==>
      Authorised(st, name, host) && name in st.secrets
      && exists p :: age.decrypt(storeKey, st.secrets[name]) == Some(p) && age.encrypt(recipient, p).None?
    ensures forall p ::
      (Authorised(st, name, host) && name in st.secrets
       && age.decrypt(storeKey, st.secrets[name]) == Some(p) && age.encrypt(recipient, p).Some?)
      ==> r == Ok(Some(age.encrypt(recipient, p).value))
  {
    if !Authorised(st, name, host) then Ok(None)
    else if name !in st.secrets then Ok(None)
    else
      match age.decrypt(storeKey, st.secrets[name])
      case None => Err(DecryptionError)
      case Some(plain) =>
        match age.encrypt(recipient, plain)
        case None => Err(EncryptError)
        case Some(sealed) => Ok(Some(sealed))
  }

  /** `add_access_for`: appends `host` to the secret's list, creating the list if
      needed; a host already listed is listed again. */
  function AddAccessFor(st: Store, secret: string, host: string): (r: Store)
    ensures Authorised(r, secret, host)
    ensures r.acl.Keys == st.acl.Keys + {secret}
    ensures |r.acl[secret]| == |AclOf(st, secret)| + 1
    ensures r.acl[secret][..|AclOf(st, secret)|] == AclOf(st, secret)
    ensures r.acl[secret][|AclOf(st, secret)|] == host
    ensures forall s :: s in st.acl && s != secret ==> r.acl[s] == st.acl[s]
    ensures r.secrets == st.secrets
  {
    var hosts := AclOf(st, secret) + [host];
    assert hosts[..|hosts| - 1] == AclOf(st, secret);
    st.(acl := st.acl[secret := hosts])
  }

  /** `remove_access_for`: drops every copy of `host` from the secret's list, leaving
      an empty list behind when the secret had none. */
  function RemoveAccessFor(st: Store, secret: string, host: string): (r: Store)
    ensures !Authorised(r, secret, host)
    ensures r.acl.Keys == st.acl.Keys + {secret}
    ensures forall h :: h != host ==> (Authorised(r, secret, h) <==> Authorised(st, secret, h))
    ensures r.acl[secret] == Without(AclOf(st, secret), host)
    ensures forall s :: s in st.acl && s != secret ==> r.acl[s] == st.acl[s]
    ensures r.secrets == st.secrets
  {
    var hosts := Without(AclOf(st, secret), host);
    assert forall h :: h != host ==> (h in hosts <==> h in AclOf(st, secret)) by {
      forall h | h != host ensures h in hosts <==> h in AclOf(st, secret) {
        assert h in hosts <==> multiset(hosts)[h] > 0;
        assert h in AclOf(st, secret) <==> multiset(AclOf(st, secret))[h] > 0;
      }
    }
    st.(acl := st.acl[secret := hosts])
  }

  /** `get_all_acl`: a snapshot of every list, which decides authorisation exactly. */
  function AllAcl(st: Store): (r: map<string, seq<string>>)
    ensures forall s, h :: Authorised(st, s, h) <==> s in r && h in r[s]
    ensures r.Keys == st.acl.Keys && forall s :: s in r ==> r[s] == AclOf(st, s)
  {
    st.acl
  }

  /** `list_secrets`: every stored name once, in no particular order. */
  method ListSecrets(st: Store) returns (names: seq<string>)
    ensures forall n :: n in names <==> n in st.secrets
    ensures forall i, j :: 0 <= i < j < |names| ==> names[i] != names[j]
  {
    names := [];
    var rest := st.secrets.Keys;
    while rest != {}
      invariant rest <= st.secrets.Keys
      invariant forall n :: n in names <==> n in st.secrets && n !in rest
      invariant forall i, j :: 0 <= i < j < |names| ==> names[i] != names[j]
      decreases rest
    {
      var n :| n in rest;
      names := names + [n];
      rest := rest - {n};
    }
  }

  /** `rename_host`: every occurrence of `current` in every list becomes `renamed`, in place. */
  function RenameHost(st: Store, current: string, renamed: string): (r: Store)
    ensures r.acl.Keys == st.acl.Keys
    ensures forall s :: s in st.acl ==> |r.acl[s]| == |st.acl[s]|
    ensures forall s, i :: s in st.acl && 0 <= i < |st.acl[s]| ==>
      r.acl[s][i] == (if st.acl[s][i] == current then renamed else st.acl[s][i])
    ensures r.secrets == st.secrets
  {
    st.(acl := map s | s in st.acl :: Replace(st.acl[s], current, renamed))
  }

  /** `remove_host`: `host` disappears from every list; no list is dropped. */
  function RemoveHost(st: Store, host: string): (r: Store)
    ensures r.acl.Keys == st.acl.Keys
    ensures forall s :: !Authorised(r, s, host)
    ensures forall s :: s in st.acl ==> r.acl[s] == Without(st.acl[s], host)
    ensures r.secrets == st.secrets
  {
    st.(acl := map s | s in st.acl :: Without(st.acl[s], host))
  }

  /** Moves the entry of `current` in `m` to `renamed`, if there is one. */
  function MoveKey<V>(m: map<string, V>, current: string, renamed: string): (r: map<string, V>)
    ensures current in m ==> renamed in r && r[renamed] == m[current]
    ensures current !in m ==> r == m
    ensures current != renamed ==> current !in r
    ensures forall k :: k != current && k != renamed ==> (k in r <==> k in m) && (k in r ==> r[k] == m[k])
  {
    if current in m then (map k | k in m && k != current :: m[k])[renamed := m[current]] else m
  }

  /** `rename_secret`: the ciphertext and the list of `current` both move to `renamed`. */
  function RenameSecret(st: Store, current: string, renamed: string): (r: Store)
    ensures current in st.secrets ==> renamed in r.secrets && r.secrets[renamed] == st.secrets[current]
    ensures current in st.acl ==> renamed in r.acl && r.acl[renamed] == st.acl[current]
    ensures current !in st.secrets ==> r.secrets == st.secrets
    ensures current !in st.acl ==> r.acl == st.acl
    ensures current != renamed ==> current !in r.secrets && current !in r.acl
    ensures forall k :: k != current && k != renamed ==>
      (k in r.secrets <==> k in st.secrets) && (k in r.secrets ==> r.secrets[k] == st.secrets[k])
      && (k in r.acl <==> k in st.acl) && (k in r.acl ==> r.acl[k] == st.acl[k])
  {
    Store(MoveKey(st.secrets, current, renamed), MoveKey(st.acl, current, renamed))
  }

  /** `remove_secret`: the ciphertext and the list both go; nothing else changes. */
  function RemoveSecret(st: Store, secret: string): (r: Store)
    ensures r.secrets.Keys == st.secrets.Keys - {secret}
    ensures r.acl.Keys == st.acl.Keys - {secret}
    ensures forall s :: s in r.secrets ==> r.secrets[s] == st.secrets[s]
    ensures forall s :: s in r.acl ==> r.acl[s] == st.acl[s]
  {
    Store(map s | s in st.secrets && s != secret :: st.secrets[s],
          map s | s in st.acl && s != secret :: st.acl[s])
  }

  /** The `create_and_retrieve_secret` unit test: a secret sealed for the store key,
      once added and granted to a host, reaches that host as the same plaintext. */
  lemma CreateAndRetrieve(age: Age, storeKey: Identity, hostKey: Identity, plain: Bytes, stored: Bytes, name: string, host: string)
    requires Sound(age)
    requires age.encrypt(age.toPublic(storeKey), plain) == Some(stored)
    requires age.encrypt(age.toPublic(hostKey), plain).Some?
    ensures AddSecret(New(), name, stored, storeKey, age).Ok?
    ensures var st := AddAccessFor(AddSecret(New(), name, stored, storeKey, age).value, name, host);
            var r := GetSecretFor(st, name, storeKey, host, age.toPublic(hostKey), age);
            r.Ok? && r.value.Some? && age.decrypt(hostKey, r.value.value) == Some(plain)
  {
    assert age.decrypt(storeKey, stored) == Some(plain);
    var st := AddAccessFor(AddSecret(New(), name, stored, storeKey, age).value, name, host);
    var sealed := age.encrypt(age.toPublic(hostKey), plain).value;
    assert age.decrypt(hostKey, sealed) == Some(plain);
    assert GetSecretFor(st, name, storeKey, host, age.toPublic(hostKey), age) == Ok(Some(sealed));
  }

  /** The `create_and_retrieve_without_allow` unit test: a stored secret nobody was
      granted is handed to no host. */
  lemma NotGrantedNotServed(st: Store, name: string, stored: Bytes, storeKey: Identity, host: string, recipient: Recipient, age: Age)
    requires st.acl == map[]
    requires AddSecret(st, name, stored, storeKey, age).Ok?
    ensures GetSecretFor(AddSecret(st, name, stored, storeKey, age).value, name, storeKey, host, recipient, age) == Ok(None)
  {
  }

  /** After `add_access_for(s, h)` the host is served `s` whenever the secret exists
      and the two age steps succeed. */
  lemma AddAccessServes(st: Store, secret: string, host: string, storeKey: Identity, recipient: Recipient, age: Age)
    requires secret in st.secrets
    requires Decryptable(age, storeKey, st.secrets[secret])
    requires age.encrypt(recipient, age.decrypt(storeKey, st.secrets[secret]).value).Some?
    ensures GetSecretFor(AddAccessFor(st, secret, host), secret, storeKey, host, recipient, age)
         == Ok(Some(age.encrypt(recipient, age.decrypt(storeKey, st.secrets[secret]).value).value))
  {
    assert Authorised(AddAccessFor(st, secret, host), secret, host);
  }

  /** The `remove_access` unit test, for every store: after `remove_access_for(s, h)`
      the host gets nothing for `s`. */
  lemma RemoveAccessDenies(st: Store, secret: string, host: string, storeKey: Identity, recipient: Recipient, age: Age)
    ensures GetSecretFor(RemoveAccessFor(st, secret, host), secret, storeKey, host, recipient, age) == Ok(None)
  {
  }

  /** After `remove_host(h)` the host gets no secret at all. */
  lemma RemoveHostDenies(st: Store, host: string, secret: string, storeKey: Identity, recipient: Recipient, age: Age)
    ensures GetSecretFor(RemoveHost(st, host), secret, storeKey, host, recipient, age) == Ok(None)
  {
  }

  /** Renaming inside one list: the old name is gone, the new name is present iff
      either name was, and every other name keeps its membership. */
  lemma ReplaceMembership(hosts: seq<string>, current: string, renamed: string)
    requires current != renamed
    ensures current !in Replace(hosts, current, renamed)
    ensures renamed in Replace(hosts, current, renamed) <==> current in hosts || renamed in hosts
    ensures forall x :: x != current && x != renamed ==> (x in Replace(hosts, current, renamed) <==> x in hosts)
  {
    var after := Replace(hosts, current, renamed);
    forall x | x != current && x != renamed ensures x in after <==> x in hosts {
      if x in after {
        var i :| 0 <= i < |after| && after[i] == x;
        assert hosts[i] == x;
      }
      if x in hosts {
        var i :| 0 <= i < |hosts| && hosts[i] == x;
        assert after[i] == x;
      }
    }
    forall i | 0 <= i < |after| ensures after[i] != current {
    }
    if renamed in after {
      var i :| 0 <= i < |after| && after[i] == renamed;
      assert hosts[i] == current || hosts[i] == renamed;
    }
    if current in hosts {
      var i :| 0 <= i < |hosts| && hosts[i] == current;
      assert after[i] == renamed;
    }
    if renamed in hosts {
      var i :| 0 <= i < |hosts| && hosts[i] == renamed;
      assert after[i] == renamed;
    }
  }

  /** `rename_host` hands the old name's access to the new name and leaves the old
      name with none; every other host keeps exactly its access. */
  lemma RenameHostMovesAccess(st: Store, current: string, renamed: string, secret: string, h: string)
    requires current != renamed
    ensures !Authorised(RenameHost(st, current, renamed), secret, current)
    ensures Authorised(RenameHost(st, current, renamed), secret, renamed)
        <==> Authorised(st, secret, current) || Authorised(st, secret, renamed)
    ensures h != current && h != renamed ==>
      (Authorised(RenameHost(st, current, renamed), secret, h) <==> Authorised(st, secret, h))
  {
    if secret in st.acl {
      ReplaceMembership(st.acl[secret], current, renamed);
    }
  }

  /** A secret renamed together with its list is served under the new name exactly
      as it was under the old one, and no longer under the old one. */
  lemma RenameSecretServesUnderNewName(st: Store, current: string, renamed: string, storeKey: Identity, host: string, recipient: Recipient, age: Age)
    requires current in st.secrets && current in st.acl
    ensures GetSecretFor(RenameSecret(st, current, renamed), renamed, storeKey, host, recipient, age)
         == GetSecretFor(st, current, storeKey, host, recipient, age)
    ensures current != renamed ==>
      GetSecretFor(RenameSecret(st, current, renamed), current, storeKey, host, recipient, age) == Ok(None)
  {
  }

  /** The `remove_secret` unit test, for every store: a removed secret is neither
      listed nor served. */
  lemma RemoveSecretForgets(st: Store, secret: string, storeKey: Identity, host: string, recipient: Recipient, age: Age)
    ensures secret !in RemoveSecret(st, secret).secrets && AclOf(RemoveSecret(st, secret), secret) == []
    ensures GetSecretFor(RemoveSecret(st, secret), secret, storeKey, host, recipient, age) == Ok(None)
  {
  }
}
