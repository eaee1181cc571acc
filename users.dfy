/**
 * The credential store: the `User` collection with its pre-save hook.
 * Documents are objects whose `password` the hook overwrites in place; the
 * collection is an ordered sequence of saved records (natural order).
 */
module Users {
  import opened Wrappers
  import opened Crypto

  /** A saved user document. `password` holds whatever the pre-save hook left there. */
  datatype User = User(id: nat, fullName: string, role: string, phoneNumber: string,
                       email: string, password: string)

  /** `User.findOne({ email })`: the first record, in natural order, with that email. */
  function FindByEmail(users: seq<User>, email: string): (r: Option<User>)
    ensures r.None? <==> forall k :: 0 <= k < |users| ==> users[k].email != email
    ensures r.Some? ==> r.value in users && r.value.email == email
    ensures r.Some? ==> exists i :: 0 <= i < |users| && users[i] == r.value &&
                                    forall k :: 0 <= k < i ==> users[k].email != email
  {
    if |users| == 0 then None
    else if users[0].email == email then Some(users[0])
    else
      var r := FindByEmail(users[1..], email);
      assert forall k :: 1 <= k < |users| ==> users[k] == users[1..][k - 1];
      r
  }

  /** No two saved records share an email address. */
  ghost predicate EmailsUnique(users: seq<User>)
  {
    forall i, j :: 0 <= i < j < |users| ==> users[i].email != users[j].email
  }

  /** No two saved records share an id. */
  ghost predicate IdsUnique(users: seq<User>)
  {
    forall i, j :: 0 <= i < j < |users| ==> users[i].id != users[j].id
  }

  /** The position of the record with this id, if any. */
  function IndexOfId(users: seq<User>, id: nat): (r: Option<nat>)
    ensures r.None? <==> forall k :: 0 <= k < |users| ==> users[k].id != id
    ensures r.Some? ==> r.value < |users| && users[r.value].id == id
    ensures r.Some? ==> forall k :: 0 <= k < r.value ==> users[k].id != id
  {
    if |users| == 0 then None
    else if users[0].id == id then Some(0)
    else match IndexOfId(users[1..], id)
      case None => None
      case Some(k) => Some(k + 1)
  }

  /**
   * `doc.save()` at the collection level: a document whose id is already
   * stored replaces that record, a new one is appended.
   */
  function Upsert(users: seq<User>, rec: User): (r: seq<User>)
    ensures rec in r
    ensures |r| == |users| <==> exists k :: 0 <= k < |users| && users[k].id == rec.id
    ensures |r| == |users| || r == users + [rec]
    ensures forall k :: 0 <= k < |users| && users[k].id != rec.id ==> r[k] == users[k]
  {
    match IndexOfId(users, rec.id)
    case Some(i) =>
      assert users[i := rec][i] == rec;
      users[i := rec]
    case None => users + [rec]
  }

  /** Saving changes exactly one record: the one with the saved id, which afterwards is `rec`. */
  lemma UpsertChangesOnlyThatRecord(users: seq<User>, rec: User)
    requires IdsUnique(users)
    ensures IdsUnique(Upsert(users, rec))
    ensures rec in Upsert(users, rec)
    ensures forall u :: u in users && u.id != rec.id ==> u in Upsert(users, rec)
    ensures forall u :: u in Upsert(users, rec) ==> u == rec || u in users
    ensures (forall k :: 0 <= k < |users| ==> users[k].id != rec.id) ==> Upsert(users, rec) == users + [rec]
  {
    var r := Upsert(users, rec);
    match IndexOfId(users, rec.id)
    case Some(i) =>
      assert r[i] == rec;
      forall u | u in users && u.id != rec.id ensures u in r {
        var k :| 0 <= k < |users| && users[k] == u;
        assert r[k] == u;
      }
    case None =>
  }

  /** Saving the same record twice leaves the collection as the first save did. */
  lemma {:induction false} UpsertIdempotent(users: seq<User>, rec: User)
    ensures Upsert(Upsert(users, rec), rec) == Upsert(users, rec)
  {
    var once := Upsert(users, rec);
    match IndexOfId(users, rec.id)
    case Some(i) =>
      IndexOfIdAt(once, rec.id, i);
    case None =>
      IndexOfIdAt(once, rec.id, |users|);
  }

  /** If position i holds the id and no earlier position does, IndexOfId finds i. */
  lemma {:induction false} IndexOfIdAt(users: seq<User>, id: nat, i: nat)
    requires i < |users| && users[i].id == id
    requires forall k :: 0 <= k < i ==> users[k].id != id
    ensures IndexOfId(users, id) == Some(i)
  {
    if i > 0 {
      IndexOfIdAt(users[1..], id, i - 1);
    }
  }

  /** What the pre-save hook leaves in `password`: a fresh hash if the path was modified, else the value as it was. */
  function HookedPassword(password: string, modified: bool, h: Hasher, salt: Salt): (stored: string)
  {
    if modified then h.hash(password, salt) else password
  }

  /** A mongoose `User` document in memory, before and after it is saved. */
  class UserDoc {
    const id: nat
    var fullName: string
    var role: string
    var phoneNumber: string
    var email: string
    var password: string
    /** `isModified('password')`: set on a new document, cleared by a successful save. */
    var passwordModified: bool

    /** `new User({ fullName, role, phoneNumber, email, password })`: every given path counts as modified. */
    constructor (id: nat, fullName: string, role: string, phoneNumber: string, email: string, password: string)
      ensures this.id == id && this.fullName == fullName && this.role == role
      ensures this.phoneNumber == phoneNumber && this.email == email && this.password == password
      ensures passwordModified
    {
      this.id := id;
      this.fullName := fullName;
      this.role := role;
      this.phoneNumber := phoneNumber;
      this.email := email;
      this.password := password;
      passwordModified := true;
    }

    /** The record this document stores. */
    function Record(): (r: User)
      reads this
      ensures r.id == id && r.email == email && r.password == password
    {
      User(id, fullName, role, phoneNumber, email, password)
    }

    /**
     * The pre-save hook: only a modified password is replaced by its hash, so
     * a stored hash is never hashed again.
     */
    method PreSave(h: Hasher, salt: Salt)
      modifies this`password
      ensures password == HookedPassword(old(password), passwordModified, h, salt)
      ensures !passwordModified ==> password == old(password)
      ensures passwordModified ==> password == h.hash(old(password), salt)
    {
      if !passwordModified {
        return;
      }
      var hash := h.hash(password, salt);
      password := hash;
    }
  }

  /** The `User` collection, with the allocator of fresh document ids. */
  class UserStore {
    var users: seq<User>
    /** Every id handed out so far is below this. */
    var nextId: nat

    ghost predicate Valid()
      reads this
    {
      IdsUnique(users) && forall k :: 0 <= k < |users| ==> users[k].id < nextId
    }

    constructor ()
      ensures Valid() && users == [] && nextId == 0
    {
      users := [];
      nextId := 0;
    }

    /** `User.findOne({ email })`, as a scan of the collection in natural order. */
    method FindOne(email: string) returns (found: Option<User>)
      ensures found == FindByEmail(users, email)
      ensures found.Some? ==> found.value in users && found.value.email == email
      ensures found.None? <==> forall k :: 0 <= k < |users| ==> users[k].email != email
    {
      var i := 0;
      while i < |users|
        invariant 0 <= i <= |users|
        invariant forall k :: 0 <= k < i ==> users[k].email != email
      {
        if users[i].email == email {
          found := Some(users[i]);
          FindByEmailAt(users, email, i);
          return;
        }
        i := i + 1;
      }
      found := None;
    }

    /** `new User({...})`: a document with a fresh id, not yet saved. */
    method NewDocument(fullName: string, role: string, phoneNumber: string, email: string, password: string)
      returns (doc: UserDoc)
      requires Valid()
      modifies this`nextId
      ensures Valid() && fresh(doc)
      ensures doc.id == old(nextId) && nextId == old(nextId) + 1
      ensures doc.Record() == User(old(nextId), fullName, role, phoneNumber, email, password)
      ensures doc.passwordModified
    {
      doc := new UserDoc(nextId, fullName, role, phoneNumber, email, password);
      nextId := nextId + 1;
    }

    /**
     * `doc.save()`: run the pre-save hook on the document, store its record
     * (replacing a saved record with the same id), and clear its modified flag.
     */
    method Save(doc: UserDoc, h: Hasher, salt: Salt)
      requires Valid() && doc.id < nextId
      modifies this`users, doc`password, doc`passwordModified
      ensures Valid() && nextId == old(nextId)
      ensures doc.password == HookedPassword(old(doc.password), old(doc.passwordModified), h, salt)
      ensures !doc.passwordModified
      ensures users == Upsert(old(users), doc.Record())
    {
      doc.PreSave(h, salt);
      UpsertChangesOnlyThatRecord(users, doc.Record());
      users := Upsert(users, doc.Record());
      doc.passwordModified := false;
    }
  }

  /** The first record with the email is at i when position i has it and no earlier one does. */
  lemma {:induction false} FindByEmailAt(users: seq<User>, email: string, i: nat)
    requires i < |users| && users[i].email == email
    requires forall k :: 0 <= k < i ==> users[k].email != email
    ensures FindByEmail(users, email) == Some(users[i])
  {
    if i > 0 {
      FindByEmailAt(users[1..], email, i - 1);
    }
  }

  /**
   * Saving a document twice with nothing changed in between hashes its
   * password once: the second save neither rehashes nor changes the store.
   */
  method ResaveDoesNotRehash(store: UserStore, doc: UserDoc, h: Hasher, salt1: Salt, salt2: Salt)
    requires store.Valid() && doc.id < store.nextId && doc.passwordModified
    modifies store`users, doc`password, doc`passwordModified
    ensures store.Valid()
    ensures doc.password == h.hash(old(doc.password), salt1)
    ensures store.users == Upsert(old(store.users), doc.Record())
  {
    store.Save(doc, h, salt1);
    store.Save(doc, h, salt2);
    UpsertIdempotent(old(store.users), doc.Record());
  }
}
