/** login_system.py: a login system that stores, per username, the hash of
    the password and never the password itself. */
module LoginSystems {
  import opened Utils
  import opened HashMain

  class LoginSystem {
    /** `hash_map`: username to hashed password. */
    var hashMap: map<string, string>

    /** Every stored value is a result of `hash`, so it has the form of one. */
    predicate Valid()
      reads this
    {
      forall username :: username in hashMap ==> DigestForm(hashMap[username])
    }

    constructor()
      ensures hashMap == map[]
      ensures Valid()
    {
      hashMap := map[];
    }

    /** `check_existing_username` */
    method CheckExistingUsername(username: string) returns (found: bool)
      ensures found <==> username in hashMap
    {
      found := username in hashMap;
    }

    /** `validate_password`: hashes the attempt and compares it with the
        stored hash. The username must exist (a missing one is a `KeyError`
        in the source, which states this as its precondition). */
    method ValidatePassword(username: string, password: string) returns (valid: bool)
      requires username in hashMap && IsAscii(password)
      ensures valid <==> hashMap[username] == Digest(password)
    {
      var hashedPassword := Hash(password);
      valid := hashMap[username] == hashedPassword;
    }

    /** `create_new_account`: stores the hash of the password under the
        username, replacing any earlier entry; no other entry changes. */
    method CreateNewAccount(username: string, password: string)
      requires IsAscii(password)
      modifies this
      ensures hashMap == old(hashMap)[username := Digest(password)]
      ensures old(Valid()) ==> Valid()
    {
      var hashedPassword := Hash(password);
      StoreKeepsForm(hashMap, username, hashedPassword, hashMap[username := hashedPassword]);
      hashMap := hashMap[username := hashedPassword];
    }

    /** `get_username_and_hash_pair` */
    method GetUsernameAndHashPair(username: string) returns (pair: (string, string))
      requires username in hashMap
      ensures pair.0 == username && pair.1 == hashMap[username]
      ensures Valid() ==> |pair.1| == 32
    {
      pair := (username, hashMap[username]);
    }

    /** `is_empty` */
    method IsEmpty() returns (empty: bool)
      ensures empty <==> hashMap == map[]
    {
      empty := |hashMap.Keys| == 0;
      assert !empty ==> exists u :: u in hashMap.Keys;
    }
  }

  /** Storing one more digest keeps every stored value a digest. */
  lemma StoreKeepsForm(m: map<string, string>, username: string, hashed: string, stored: map<string, string>)
    requires DigestForm(hashed) && stored == m[username := hashed]
    ensures (forall u :: u in m ==> DigestForm(m[u])) ==> forall u :: u in stored ==> DigestForm(stored[u])
  {
  }

  /** A fresh system with one account: the account exists, the system is not
      empty, the stored pair is the username with the hash of its password,
      the password is accepted, and another attempt is accepted exactly when
      it hashes to the same value. */
  method SignUpThenLogIn(password: string, attempt: string)
    returns (found: bool, empty: bool, pair: (string, string), accepted: bool, acceptedAttempt: bool)
    requires IsAscii(password) && IsAscii(attempt)
    ensures found && !empty
    ensures pair == ("guest", Digest(password))
    ensures accepted
    ensures acceptedAttempt <==> Digest(attempt) == Digest(password)
  {
    var system := new LoginSystem();
    system.CreateNewAccount("guest", password);
    found := system.CheckExistingUsername("guest");
    empty := system.IsEmpty();
    pair := system.GetUsernameAndHashPair("guest");
    accepted := system.ValidatePassword("guest", password);
    acceptedAttempt := system.ValidatePassword("guest", attempt);
  }

  /** Creating another account leaves an existing account's answer for
      any password as it was. */
  method AddAccountKeepsOthers(system: LoginSystem, username: string, password: string,
                               otherUsername: string, otherPassword: string)
    returns (valid: bool)
    requires username != otherUsername && username in system.hashMap
    requires IsAscii(password) && IsAscii(otherPassword)
    modifies system
    ensures valid <==> old(system.hashMap[username]) == Digest(password)
  {
    system.CreateNewAccount(otherUsername, otherPassword);
    valid := system.ValidatePassword(username, password);
  }
}
