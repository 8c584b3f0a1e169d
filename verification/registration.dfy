/** `register`: the username derived from the person's names, made unique by a numeric
    suffix, and the new user row. */
module Registration {
  import opened Common
  import opened Text
  import opened Schema

  // ---------------------------------------------------------------------------
  // The username.

  /** `strtolower(preg_replace('/\s+/', '', first_name . '_' . last_name))` (AuthController.php line 33). */
  function BaseUsername(firstName: string, lastName: string): (r: string)
    ensures Normalized(r)
  {
    Slug(firstName + "_" + lastName)
  }

  /** The base username is the slug of each name around an underscore. */
  lemma BaseUsernameParts(firstName: string, lastName: string)
    ensures BaseUsername(firstName, lastName) == Slug(firstName) + "_" + Slug(lastName)
  {
    SlugAppend(firstName + "_", lastName);
    SlugAppend(firstName, "_");
    SlugChar('_');
  }

  /** The `k`-th name the loop tries: the base itself, then the base followed by `k`. */
  function Candidate(base: string, k: nat): string {
    if k == 0 then base else base + NatToString(k)
  }

  /** Different attempts try different names. */
  lemma CandidateInjective(base: string, i: nat, j: nat)
    requires Candidate(base, i) == Candidate(base, j)
    ensures i == j
  {
    if i != 0 && j != 0 {
      assert Candidate(base, i)[|base|..] == NatToString(i);
      assert Candidate(base, j)[|base|..] == NatToString(j);
      NatToStringInjective(i, j);
    }
  }

  /** The names tried before attempt `k`. */
  ghost function Tried(base: string, k: nat): set<string> {
    if k == 0 then {} else Tried(base, k - 1) + {Candidate(base, k - 1)}
  }

  lemma {:induction false} TriedMembers(base: string, k: nat)
    ensures forall x :: x in Tried(base, k) <==> exists j | 0 <= j < k :: x == Candidate(base, j)
  {
    if k > 0 {
      TriedMembers(base, k - 1);
    }
  }

  /** Attempt `k` has tried `k` distinct names. */
  lemma {:induction false} TriedSize(base: string, k: nat)
    ensures |Tried(base, k)| == k
  {
    if k > 0 {
      TriedSize(base, k - 1);
      TriedMembers(base, k - 1);
      if Candidate(base, k - 1) in Tried(base, k - 1) {
        var j :| 0 <= j < k - 1 && Candidate(base, k - 1) == Candidate(base, j);
        CandidateInjective(base, j, k - 1);
      }
    }
  }

  /** `name` is what the loop settles on: the first candidate not in `taken`. */
  ghost predicate Disambiguated(taken: set<string>, base: string, name: string) {
    exists k: nat :: name == Candidate(base, k) && name !in taken && forall j | 0 <= j < k :: Candidate(base, j) in taken
  }

  /** The disambiguation loop (AuthController.php lines 35-40): try the base, then the base
      followed by 1, 2, ... until a name no user has. It stops because a finite set of taken
      names can only refuse as many candidates as it has elements. */
  method ChooseUsername(taken: set<string>, base: string) returns (username: string, k: nat)
    ensures username == Candidate(base, k)
    ensures username !in taken
    ensures forall j | 0 <= j < k :: Candidate(base, j) in taken
  {
    username := base;
    k := 0;
    TriedSize(base, 0);
    while username in taken
      invariant username == Candidate(base, k)
      invariant forall j | 0 <= j < k :: Candidate(base, j) in taken
      invariant Tried(base, k) <= taken && |Tried(base, k)| == k
      decreases |taken| - k
    {
      TriedSize(base, k + 1);
      assert Tried(base, k + 1) <= taken;
      SubsetSize(Tried(base, k + 1), taken);
      k := k + 1;
      username := base + NatToString(k);
    }
  }

  lemma SubsetSize<T>(a: set<T>, b: set<T>)
    requires a <= b
    ensures |a| <= |b|
  {
    assert b == a + (b - a);
  }

  /** The loop's answer is the only disambiguated name: a free base is kept, and otherwise the
      smallest free suffix wins. */
  lemma DisambiguatedUnique(taken: set<string>, base: string, a: string, b: string)
    requires Disambiguated(taken, base, a) && Disambiguated(taken, base, b)
    ensures a == b
  {
    var i: nat :| a == Candidate(base, i) && a !in taken && forall j | 0 <= j < i :: Candidate(base, j) in taken;
    var k: nat :| b == Candidate(base, k) && b !in taken && forall j | 0 <= j < k :: Candidate(base, j) in taken;
  }

  /** The slug of a capitalised word is the word with its first letter lowered. */
  lemma SlugCapitalised(c: char, rest: string)
    requires !IsSpace(c) && Normalized(rest)
    ensures Slug([c] + rest) == [Lower(c)] + rest
  {
    SlugAppend([c], rest);
    SlugChar(c);
    SlugOfNormalized(rest);
  }

  /** Jane Doe's base username is "jane_doe". */
  lemma JaneDoeBase()
    ensures BaseUsername("Jane", "Doe") == "jane_doe"
  {
    BaseUsernameParts("Jane", "Doe");
    assert Slug("Jane") == "jane" by {
      assert "Jane" == ['J'] + "ane";
      SlugCapitalised('J', "ane");
    }
    assert Slug("Doe") == "doe" by {
      assert "Doe" == ['D'] + "oe";
      SlugCapitalised('D', "oe");
    }
  }

  /** With "jane_doe" taken the loop settles on "jane_doe1"; with nothing taken, on "jane_doe". */
  lemma JaneDoeExample(name: string)
    ensures Disambiguated({"jane_doe"}, "jane_doe", name) ==> name == "jane_doe1"
    ensures Disambiguated({}, "jane_doe", name) ==> name == "jane_doe"
  {
    assert Candidate("jane_doe", 1) == "jane_doe1";
    assert Disambiguated({"jane_doe"}, "jane_doe", "jane_doe1") by {
      assert forall j | 0 <= j < 1 :: Candidate("jane_doe", j) in {"jane_doe"};
    }
    if Disambiguated({"jane_doe"}, "jane_doe", name) {
      DisambiguatedUnique({"jane_doe"}, "jane_doe", name, "jane_doe1");
    }
    assert Disambiguated({}, "jane_doe", "jane_doe") by {
      assert Candidate("jane_doe", 0) == "jane_doe";
    }
    if Disambiguated({}, "jane_doe", name) {
      DisambiguatedUnique({}, "jane_doe", name, "jane_doe");
    }
  }

  // ---------------------------------------------------------------------------
  // The endpoint.

  datatype RegistrationRequest = RegistrationRequest(
    firstName: string, lastName: string, email: string, password: string, position: int)

  datatype RegisterOutcome =
    | Registered(user: User)   // 201
    | InvalidInput             // the request rules failed (400)

  function Usernames(users: seq<User>): set<string> {
    set u | u in users :: u.username
  }

  /** The request rules (AuthController.php lines 16-22): names present (not blank) and at most
      255 characters, an e-mail present and at most 255 characters that no user has, a password
      present and of at least 8 characters, and an integer position, which need not name a role. */
  predicate Acceptable(db: Db, req: RegistrationRequest) {
    && !Blank(req.firstName) && |req.firstName| <= 255
    && !Blank(req.lastName) && |req.lastName| <= 255
    && !Blank(req.email) && |req.email| <= 255
    && (forall i | 0 <= i < |db.users| :: db.users[i].email != req.email)
    && !Blank(req.password) && |req.password| >= 8
  }

  /** `required` fails on any field `trim` empties, an eight-space password included, so
      `Register` answers `InvalidInput` and writes nothing. */
  lemma BlankFieldRejected(db: Db, req: RegistrationRequest)
    requires Trim(req.firstName) == "" || Trim(req.lastName) == "" || Trim(req.email) == "" || Trim(req.password) == ""
    ensures !Acceptable(db, req)
  {
    BlankIffTrimmedEmpty(req.firstName);
    BlankIffTrimmedEmpty(req.lastName);
    BlankIffTrimmedEmpty(req.email);
    BlankIffTrimmedEmpty(req.password);
  }

  /** `register` (AuthController.php lines 14-58): validate, choose the username, insert the user. */
  method Register(db: Db, req: RegistrationRequest) returns (o: RegisterOutcome, db': Db)
    ensures o.InvalidInput? <==> !Acceptable(db, req)
    ensures o.InvalidInput? ==> db' == db
    ensures o.Registered? ==> db' == db.(users := db.users + [o.user])
    ensures o.Registered? ==>
      && Disambiguated(Usernames(db.users), BaseUsername(req.firstName, req.lastName), o.user.username)
      && o.user.firstName == req.firstName && o.user.lastName == req.lastName
      && o.user.email == req.email && o.user.position == req.position
      && (forall i | 0 <= i < |db.users| :: db.users[i].id != o.user.id)
    ensures o.Registered? && Valid(db) ==> Valid(db')
  {
    if !Acceptable(db, req) {
      return InvalidInput, db;
    }
    var base := BaseUsername(req.firstName, req.lastName);
    var username, k := ChooseUsername(Usernames(db.users), base);
    var user := User(NextUserId(db.users), req.firstName, req.lastName, username, req.email, req.position);
    o := Registered(user);
    db' := db.(users := db.users + [user]);
    forall i | 0 <= i < |db.users| ensures db.users[i].username != username {
      assert db.users[i].username in Usernames(db.users);
    }
    if Valid(db) {
      assert UsersUnique(db'.users) by {
        forall i, j | 0 <= i < j < |db'.users|
          ensures db'.users[i].id != db'.users[j].id && db'.users[i].username != db'.users[j].username
            && db'.users[i].email != db'.users[j].email
        {
          assert db'.users[i] == db.users[i];
          if j < |db.users| {
            assert db'.users[j] == db.users[j];
          }
        }
      }
    }
  }
}
