/** The user/account store of `services/userService.ts`: login matching,
    registration, the credit ledger, follows and the admin's flag toggles.
    Every operation is a pure transition over an immutable `UserStore`. */
module Users {
  import opened Wrappers
  import opened Text
  import Collections
  import Sorting

  type UserId = int

  datatype Role = Admin | Member

  /** An account. `password` stands for the optional `password_hash` field:
      it is `None` on the sanitised copies the store hands out. */
  datatype User = User(
    id: UserId,
    name: string,
    email: string,
    password: Option<string>,
    isVerified: bool,
    isPremium: bool,
    joinedAt: nat,
    credits: int,
    followers: seq<UserId>,
    following: seq<UserId>,
    role: Role)

  datatype UserError = EmailTaken | UserNotFound | NotFoundOrInsufficientCredits

  /** The module-level `users` array together with the `nextId` counter. */
  datatype UserStore = UserStore(users: seq<User>, nextId: int)

  /** Credits granted to every new account. */
  const WelcomeCredits: int := 5

  /** The store as the module starts: the site owner's admin account and the
      counter at 2. `now` stands for the `new Date()` of `joinedAt`. */
  function InitialStore(now: nat): (st: UserStore)
    ensures Valid(st)
    ensures |st.users| == 1 && st.users[0].role == Admin && st.users[0].id < st.nextId
    ensures st.users[0].id == 1 && st.users[0].credits == 9999 && st.nextId == 2
    ensures Login(st, "admin@souq.com", "admin123").Some?
  {
    var owner := User(1, "مالك الموقع", "admin@souq.com", Some("admin123"),
                      true, true, now, 9999, [], [], Admin);
    UserStore([owner], 2)
  }

  /** Ids are unique and every id was handed out by the counter. */
  ghost predicate Valid(st: UserStore)
  {
    && (forall i, j :: 0 <= i < j < |st.users| ==> st.users[i].id != st.users[j].id)
    && (forall i :: 0 <= i < |st.users| ==> st.users[i].id < st.nextId)
  }

  /** A store whose users keep their ids, position by position, keeps `Valid`. */
  lemma SameIdsKeepValid(st: UserStore, st': UserStore)
    requires Valid(st)
    requires st'.nextId == st.nextId && |st'.users| == |st.users|
    requires forall i :: 0 <= i < |st.users| ==> st'.users[i].id == st.users[i].id
    ensures Valid(st')
  {
  }

  function HasId(id: UserId): User -> bool
  {
    (u: User) => u.id == id
  }

  /** The copy handed out to callers, without the password. */
  function Sanitize(u: User): (r: User)
    ensures r.password.None?
    ensures r.(password := u.password) == u
  {
    u.(password := None)
  }

  /** `users.find(u => u.id === id)`: the stored record, password included. */
  function FindUser(users: seq<User>, id: UserId): (r: Option<User>)
    ensures r.Some? ==> r.value in users && r.value.id == id
    ensures r.None? <==> forall u :: u in users ==> u.id != id
    ensures forall k ::
      (0 <= k < |users| && users[k].id == id && forall i :: 0 <= i < k ==> users[i].id != id)
      ==> r == Some(users[k])
  {
    match Collections.FirstIndex(users, HasId(id))
    case None => None
    case Some(k) =>
      forall k' | 0 <= k' < |users| && users[k'].id == id && (forall i :: 0 <= i < k' ==> users[i].id != id)
        ensures k' == k
      {
        Collections.FirstIndexIsFirst(users, HasId(id), k');
      }
      Some(users[k])
  }

  /** `getUserById`: the sanitised record with that id. */
  function GetUserById(st: UserStore, id: UserId): (r: Option<User>)
    ensures r.None? <==> forall u :: u in st.users ==> u.id != id
    ensures r.Some? ==> r.value.id == id && r.value.password.None?
    ensures r.Some? ==> exists u :: u in st.users && r.value == Sanitize(u)
    ensures forall k ::
      (0 <= k < |st.users| && st.users[k].id == id && forall i :: 0 <= i < k ==> st.users[i].id != id)
      ==> r == Some(Sanitize(st.users[k]))
  {
    match FindUser(st.users, id)
    case None => None
    case Some(u) => Some(Sanitize(u))
  }

  /** With unique ids the record found is THE record with that id. */
  lemma GetUserByIdUnique(st: UserStore, k: nat)
    requires Valid(st)
    requires k < |st.users|
    ensures GetUserById(st, st.users[k].id) == Some(Sanitize(st.users[k]))
  {
    var r := Collections.FirstIndex(st.users, HasId(st.users[k].id));
    assert HasId(st.users[k].id)(st.users[k]);
  }

  /** The e-mail test of `login` and `register`: equal after lower-casing. */
  predicate LoginMatches(u: User, email: string, password: string)
  {
    EqualsIgnoreCase(u.email, email) && u.password == Some(password)
  }

  function LoginTest(email: string, password: string): User -> bool
  {
    (u: User) => LoginMatches(u, email, password)
  }

  /** `login`: a copy of the first account whose e-mail matches ignoring case
      and whose stored password equals `password` exactly; `None` otherwise.
      The store is not an output, so it is left as it was. */
  function Login(st: UserStore, email: string, password: string): (r: Option<User>)
    ensures r.Some? <==> exists u :: u in st.users && LoginMatches(u, email, password)
    ensures r.Some? ==> r.value in st.users && LoginMatches(r.value, email, password)
    ensures forall k ::
      (0 <= k < |st.users| && LoginMatches(st.users[k], email, password)
       && forall i :: 0 <= i < k ==> !LoginMatches(st.users[i], email, password))
      ==> r == Some(st.users[k])
  {
    match Collections.FirstIndex(st.users, LoginTest(email, password))
    case None => None
    case Some(k) => Some(st.users[k])
  }

  /** Some account already uses `email`, ignoring case. */
  predicate EmailInUse(users: seq<User>, email: string)
  {
    exists u :: u in users && EqualsIgnoreCase(u.email, email)
  }

  /** `register`: rejects an e-mail already in use (ignoring case) and leaves
      the store alone; otherwise appends a fresh member account. */
  function Register(st: UserStore, name: string, email: string, password: string, now: nat)
    : (r: Step<UserStore, Result<User, UserError>>)
    ensures r.out.Err? <==> EmailInUse(st.users, email)
    ensures r.out.Err? ==> r.out.error == EmailTaken && r.next == st
    ensures r.out.Ok? ==>
      && r.next.users == st.users + [r.out.value]
      && r.next.nextId == st.nextId + 1
    ensures r.out.Ok? ==>
      var u := r.out.value;
      && u.id == st.nextId && u.name == name && u.email == email
      && u.password == Some(password) && u.joinedAt == now
      && u.role == Member && !u.isVerified && !u.isPremium
      && u.credits == WelcomeCredits && u.followers == [] && u.following == []
  {
    if EmailInUse(st.users, email) then Step(st, Err(EmailTaken))
    else
      var u := User(st.nextId, name, email, Some(password), false, false, now,
                    WelcomeCredits, [], [], Member);
      Step(UserStore(st.users + [u], st.nextId + 1), Ok(u))
  }

  /** Registration keeps ids unique. */
  lemma RegisterKeepsValid(st: UserStore, name: string, email: string, password: string, now: nat)
    requires Valid(st)
    ensures Valid(Register(st, name, email, password, now).next)
  {
  }

  /** A fresh registration can log in straight away with the same e-mail and
      password, and gets the account just created. */
  lemma RegisterThenLogin(st: UserStore, name: string, email: string, password: string, now: nat)
    requires !EmailInUse(st.users, email)
    ensures var r := Register(st, name, email, password, now);
            Login(r.next, email, password) == Some(r.out.value)
  {
    var r := Register(st, name, email, password, now);
    var us := r.next.users;
    assert LoginTest(email, password)(us[|us| - 1]);
  }

  /** Ordering of `getUsers`: ascending id. */
  predicate IdOrder(a: User, b: User)
  {
    a.id <= b.id
  }

  lemma IdOrderIsTotalPreorder()
    ensures Sorting.TotalPreorder(IdOrder)
  {
  }

  /** `getUsers`: sanitised copies of every account, ascending by id. */
  function GetUsers(st: UserStore): (r: seq<User>)
    ensures |r| == |st.users|
    ensures multiset(r) == multiset(seq(|st.users|, i requires 0 <= i < |st.users| => Sanitize(st.users[i])))
  {
    Sorting.Sort(seq(|st.users|, i requires 0 <= i < |st.users| => Sanitize(st.users[i])), IdOrder)
  }

  /** `getUsers` lists every account, sanitised, ascending by id. */
  lemma GetUsersSorted(st: UserStore)
    ensures Sorting.SortedBy(GetUsers(st), IdOrder)
    ensures forall u :: u in st.users ==> Sanitize(u) in GetUsers(st)
    ensures forall i :: 0 <= i < |GetUsers(st)| ==> GetUsers(st)[i].password.None?
  {
    var s := seq(|st.users|, i requires 0 <= i < |st.users| => Sanitize(st.users[i]));
    var r := GetUsers(st);
    IdOrderIsTotalPreorder();
    Sorting.SortSorted(s, IdOrder);
    forall u | u in st.users
      ensures Sanitize(u) in r
    {
      var k :| 0 <= k < |st.users| && st.users[k] == u;
      assert s[k] == Sanitize(u);
      assert Sanitize(u) in multiset(s);
    }
    forall i | 0 <= i < |r|
      ensures r[i].password.None?
    {
      assert r[i] in multiset(s);
    }
  }

  /** `toggleUserVerification`: flips `isVerified` of the users with that id
      and changes nothing else; an unknown id changes nothing. */
  function ToggleUserVerification(st: UserStore, id: UserId): (r: UserStore)
    ensures r.nextId == st.nextId && |r.users| == |st.users|
    ensures forall i :: 0 <= i < |st.users| ==>
      && r.users[i].isVerified == (st.users[i].isVerified != (st.users[i].id == id))
      && r.users[i].(isVerified := st.users[i].isVerified) == st.users[i]
  {
    var us := st.users;
    UserStore(seq(|us|, i requires 0 <= i < |us| =>
      if us[i].id == id then us[i].(isVerified := !us[i].isVerified) else us[i]), st.nextId)
  }

  /** `toggleUserPremium`: flips `isPremium` of the users with that id and
      changes nothing else. */
  function ToggleUserPremium(st: UserStore, id: UserId): (r: UserStore)
    ensures r.nextId == st.nextId && |r.users| == |st.users|
    ensures forall i :: 0 <= i < |st.users| ==>
      && r.users[i].isPremium == (st.users[i].isPremium != (st.users[i].id == id))
      && r.users[i].(isPremium := st.users[i].isPremium) == st.users[i]
  {
    var us := st.users;
    UserStore(seq(|us|, i requires 0 <= i < |us| =>
      if us[i].id == id then us[i].(isPremium := !us[i].isPremium) else us[i]), st.nextId)
  }

  /** Toggling a flag twice restores the store. */
  lemma ToggleTwiceRestores(st: UserStore, id: UserId)
    ensures ToggleUserVerification(ToggleUserVerification(st, id), id) == st
    ensures ToggleUserPremium(ToggleUserPremium(st, id), id) == st
  {
    var a := ToggleUserVerification(ToggleUserVerification(st, id), id);
    var b := ToggleUserPremium(ToggleUserPremium(st, id), id);
    assert a.users == st.users;
    assert b.users == st.users;
  }

  /** `updateUser`: sets name and e-mail of the users with that id and returns
      the sanitised record; fails with `UserNotFound` when no user has it. */
  function UpdateUser(st: UserStore, id: UserId, name: string, email: string)
    : (r: Step<UserStore, Result<User, UserError>>)
    ensures r.next.nextId == st.nextId && |r.next.users| == |st.users|
    ensures forall i :: 0 <= i < |st.users| ==>
      if st.users[i].id == id
      then r.next.users[i] == st.users[i].(name := name, email := email)
      else r.next.users[i] == st.users[i]
    ensures r.out.Err? <==> forall u :: u in st.users ==> u.id != id
    ensures r.out.Err? ==> r.out.error == UserNotFound && r.next == st
    ensures r.out.Ok? ==>
      exists k :: 0 <= k < |st.users| && st.users[k].id == id && r.out.value == Sanitize(r.next.users[k])
  {
    var us := st.users;
    var us' := seq(|us|, i requires 0 <= i < |us| =>
      if us[i].id == id then us[i].(name := name, email := email) else us[i]);
    match Collections.LastIndex(us, HasId(id))
    case None =>
      assert us' == us;
      Step(st, Err(UserNotFound))
    case Some(k) =>
      assert HasId(id)(us[k]);
      Step(UserStore(us', st.nextId), Ok(Sanitize(us'[k])))
  }

  /** The users `spendCredit` may charge: that id, and enough credits. */
  predicate CanSpend(u: User, id: UserId, amount: int)
  {
    u.id == id && u.credits >= amount
  }

  function SpendTest(id: UserId, amount: int): User -> bool
  {
    (u: User) => CanSpend(u, id, amount)
  }

  /** `spendCredit`: charges `amount` to the user with that id when the
      balance covers it; fails otherwise and leaves the store alone. */
  function SpendCredit(st: UserStore, id: UserId, amount: int): (r: Step<UserStore, Result<User, UserError>>)
    ensures r.next.nextId == st.nextId && |r.next.users| == |st.users|
    ensures forall i :: 0 <= i < |st.users| ==>
      && r.next.users[i].(credits := st.users[i].credits) == st.users[i]
      && r.next.users[i].credits ==
           if CanSpend(st.users[i], id, amount) then st.users[i].credits - amount else st.users[i].credits
    ensures r.out.Err? <==> forall u :: u in st.users ==> !CanSpend(u, id, amount)
    ensures r.out.Err? ==> r.out.error == NotFoundOrInsufficientCredits && r.next == st
    ensures r.out.Ok? ==>
      exists k :: 0 <= k < |st.users| && CanSpend(st.users[k], id, amount) && r.out.value == Sanitize(r.next.users[k])
  {
    var us := st.users;
    var us' := seq(|us|, i requires 0 <= i < |us| =>
      if CanSpend(us[i], id, amount) then us[i].(credits := us[i].credits - amount) else us[i]);
    match Collections.LastIndex(us, SpendTest(id, amount))
    case None =>
      assert us' == us;
      Step(st, Err(NotFoundOrInsufficientCredits))
    case Some(k) =>
      assert SpendTest(id, amount)(us[k]);
      Step(UserStore(us', st.nextId), Ok(Sanitize(us'[k])))
  }

  /** `addCredits`: adds `amount` to the users with that id; fails with
      `UserNotFound` when there is none. */
  function AddCredits(st: UserStore, id: UserId, amount: int): (r: Step<UserStore, Result<User, UserError>>)
    ensures r.next.nextId == st.nextId && |r.next.users| == |st.users|
    ensures forall i :: 0 <= i < |st.users| ==>
      && r.next.users[i].(credits := st.users[i].credits) == st.users[i]
      && r.next.users[i].credits ==
           if st.users[i].id == id then st.users[i].credits + amount else st.users[i].credits
    ensures r.out.Err? <==> forall u :: u in st.users ==> u.id != id
    ensures r.out.Err? ==> r.out.error == UserNotFound && r.next == st
    ensures r.out.Ok? ==>
      exists k :: 0 <= k < |st.users| && st.users[k].id == id && r.out.value == Sanitize(r.next.users[k])
  {
    var us := st.users;
    var us' := seq(|us|, i requires 0 <= i < |us| =>
      if us[i].id == id then us[i].(credits := us[i].credits + amount) else us[i]);
    match Collections.LastIndex(us, HasId(id))
    case None =>
      assert us' == us;
      Step(st, Err(UserNotFound))
    case Some(k) =>
      assert HasId(id)(us[k]);
      Step(UserStore(us', st.nextId), Ok(Sanitize(us'[k])))
  }

  /** Every balance is non-negative. */
  ghost predicate CreditsNonNegative(st: UserStore)
  {
    forall i :: 0 <= i < |st.users| ==> st.users[i].credits >= 0
  }

  /** Spending never drives a balance negative, whatever the amount; adding
      keeps balances non-negative for the non-negative amounts callers pass. */
  lemma CreditsStayNonNegative(st: UserStore, id: UserId, amount: int)
    requires CreditsNonNegative(st)
    ensures CreditsNonNegative(SpendCredit(st, id, amount).next)
    ensures amount >= 0 ==> CreditsNonNegative(AddCredits(st, id, amount).next)
  {
  }

  /** With unique ids, a successful charge followed by a refund of the same
      amount restores the store exactly. */
  lemma SpendThenAddRestores(st: UserStore, id: UserId, amount: int)
    requires Valid(st)
    requires SpendCredit(st, id, amount).out.Ok?
    ensures AddCredits(SpendCredit(st, id, amount).next, id, amount).next == st
  {
    var st1 := SpendCredit(st, id, amount).next;
    var st2 := AddCredits(st1, id, amount).next;
    var k :| 0 <= k < |st.users| && CanSpend(st.users[k], id, amount);
    RefundAll(st.users, st1.users, st2.users, id, amount, k);
  }

  /** The charge and the refund, record by record, over ids that are unique. */
  lemma RefundAll(us: seq<User>, us1: seq<User>, us2: seq<User>, id: UserId, amount: int, k: int)
    requires forall i, j :: 0 <= i < j < |us| ==> us[i].id != us[j].id
    requires 0 <= k < |us| && CanSpend(us[k], id, amount)
    requires |us1| == |us| && |us2| == |us|
    requires forall i :: 0 <= i < |us| ==>
      && us1[i].(credits := us[i].credits) == us[i]
      && us1[i].credits == if CanSpend(us[i], id, amount) then us[i].credits - amount else us[i].credits
    requires forall i :: 0 <= i < |us| ==>
      && us2[i].(credits := us1[i].credits) == us1[i]
      && us2[i].credits == if us1[i].id == id then us1[i].credits + amount else us1[i].credits
    ensures us2 == us
  {
    forall i | 0 <= i < |us|
      ensures us2[i] == us[i]
    {
      if i < k {
        assert us[i].id != us[k].id;
      } else if k < i {
        assert us[k].id != us[i].id;
      }
      RefundOne(us[i], us1[i], us2[i], id, amount, i == k);
    }
  }

  /** One record through a charge and a refund: when only the charged
      record has the id, it comes back as it was. */
  lemma RefundOne(u: User, u1: User, u2: User, id: UserId, amount: int, charged: bool)
    requires u1.(credits := u.credits) == u
    requires u1.credits == if CanSpend(u, id, amount) then u.credits - amount else u.credits
    requires u2.(credits := u1.credits) == u1
    requires u2.credits == if u1.id == id then u1.credits + amount else u1.credits
    requires u.id == id <==> charged
    requires charged ==> CanSpend(u, id, amount)
    ensures u2 == u
  {
  }

  /** `followUser`: the follower's record gains `target` in `following`
      unless already there; otherwise the target's record gains `follower` in
      `followers` unless already there. */
  function FollowUser(st: UserStore, follower: UserId, target: UserId): (r: UserStore)
    ensures r.nextId == st.nextId && |r.users| == |st.users|
    ensures forall i :: 0 <= i < |st.users| ==>
      r.users[i].(followers := st.users[i].followers, following := st.users[i].following) == st.users[i]
  {
    var us := st.users;
    UserStore(seq(|us|, i requires 0 <= i < |us| => FollowOne(us[i], follower, target)), st.nextId)
  }

  /** The per-record rule of `followUser`, its two guarded branches in order. */
  function FollowOne(u: User, follower: UserId, target: UserId): User
  {
    if u.id == follower && target !in u.following then u.(following := u.following + [target])
    else if u.id == target && follower !in u.followers then u.(followers := u.followers + [follower])
    else u
  }

  function Except(x: UserId): UserId -> bool
  {
    (y: UserId) => y != x
  }

  /** `unfollowUser`: drops `target` from the follower's `following`, or
      else drops `follower` from the target's `followers`. */
  function UnfollowUser(st: UserStore, follower: UserId, target: UserId): (r: UserStore)
    ensures r.nextId == st.nextId && |r.users| == |st.users|
    ensures forall i :: 0 <= i < |st.users| ==>
      r.users[i].(followers := st.users[i].followers, following := st.users[i].following) == st.users[i]
  {
    var us := st.users;
    UserStore(seq(|us|, i requires 0 <= i < |us| => UnfollowOne(us[i], follower, target)), st.nextId)
  }

  function UnfollowOne(u: User, follower: UserId, target: UserId): User
  {
    if u.id == follower then u.(following := Collections.Filter(u.following, Except(target)))
    else if u.id == target then u.(followers := Collections.Filter(u.followers, Except(follower)))
    else u
  }

  /** No follow list holds an id twice. */
  ghost predicate FollowListsDistinct(st: UserStore)
  {
    forall i :: 0 <= i < |st.users| ==>
      Collections.NoDuplicates(st.users[i].followers) && Collections.NoDuplicates(st.users[i].following)
  }

  /** For two distinct users, following records the edge on both sides,
      never duplicates an entry, and leaves every other user as it was. */
  lemma FollowEffect(st: UserStore, a: UserId, b: UserId)
    requires a != b
    requires FollowListsDistinct(st)
    ensures var r := FollowUser(st, a, b);
      && FollowListsDistinct(r)
      && (forall i :: 0 <= i < |st.users| && st.users[i].id == a ==>
            b in r.users[i].following && r.users[i].followers == st.users[i].followers)
      && (forall i :: 0 <= i < |st.users| && st.users[i].id == b ==>
            a in r.users[i].followers && r.users[i].following == st.users[i].following)
      && (forall i :: 0 <= i < |st.users| && st.users[i].id == a ==>
            r.users[i].following ==
              if b in st.users[i].following then st.users[i].following else st.users[i].following + [b])
      && (forall i :: 0 <= i < |st.users| && st.users[i].id == b ==>
            r.users[i].followers ==
              if a in st.users[i].followers then st.users[i].followers else st.users[i].followers + [a])
      && (forall i :: 0 <= i < |st.users| && st.users[i].id != a && st.users[i].id != b ==>
            r.users[i] == st.users[i])
  {
    var r := FollowUser(st, a, b);
    forall i | 0 <= i < |st.users|
      ensures Collections.NoDuplicates(r.users[i].followers) && Collections.NoDuplicates(r.users[i].following)
    {
      var u := st.users[i];
      assert multiset(u.following + [b]) == multiset(u.following) + multiset{b};
      assert multiset(u.followers + [a]) == multiset(u.followers) + multiset{a};
    }
  }

  /** For two distinct users, following twice is the same as following once. */
  lemma FollowIdempotent(st: UserStore, a: UserId, b: UserId)
    requires a != b
    ensures FollowUser(FollowUser(st, a, b), a, b) == FollowUser(st, a, b)
  {
    var r := FollowUser(st, a, b);
    assert FollowUser(r, a, b).users == r.users;
  }

  /** For two distinct users, unfollowing removes the edge on both sides and
      leaves every other user as it was. */
  lemma UnfollowEffect(st: UserStore, a: UserId, b: UserId)
    requires a != b
    ensures var r := UnfollowUser(st, a, b);
      && (forall i :: 0 <= i < |st.users| && st.users[i].id == a ==>
            b !in r.users[i].following && r.users[i].followers == st.users[i].followers)
      && (forall i :: 0 <= i < |st.users| && st.users[i].id == b ==>
            a !in r.users[i].followers && r.users[i].following == st.users[i].following)
      && (forall i, x :: 0 <= i < |st.users| && st.users[i].id == a && x != b ==>
            multiset(r.users[i].following)[x] == multiset(st.users[i].following)[x])
      && (forall i, x :: 0 <= i < |st.users| && st.users[i].id == b && x != a ==>
            multiset(r.users[i].followers)[x] == multiset(st.users[i].followers)[x])
      && (forall i :: 0 <= i < |st.users| && st.users[i].id != a && st.users[i].id != b ==>
            r.users[i] == st.users[i])
  {
    var r := UnfollowUser(st, a, b);
    forall i | 0 <= i < |st.users|
      ensures st.users[i].id == a ==> forall x :: x != b ==>
                multiset(r.users[i].following)[x] == multiset(st.users[i].following)[x]
      ensures st.users[i].id == b ==> forall x :: x != a ==>
                multiset(r.users[i].followers)[x] == multiset(st.users[i].followers)[x]
    {
      Collections.FilterMultiset(st.users[i].following, Except(b));
      Collections.FilterMultiset(st.users[i].followers, Except(a));
    }
  }

  /** For two distinct users not yet linked, unfollowing undoes following. */
  lemma UnfollowUndoesFollow(st: UserStore, a: UserId, b: UserId)
    requires a != b
    requires forall i :: 0 <= i < |st.users| && st.users[i].id == a ==> b !in st.users[i].following
    requires forall i :: 0 <= i < |st.users| && st.users[i].id == b ==> a !in st.users[i].followers
    ensures UnfollowUser(FollowUser(st, a, b), a, b) == st
  {
    var r := UnfollowUser(FollowUser(st, a, b), a, b);
    forall i | 0 <= i < |st.users|
      ensures r.users[i] == st.users[i]
    {
      var u := st.users[i];
      if u.id == a {
        Collections.FilterAppend(u.following, [b], Except(b));
        Collections.FilterKeepsAll(u.following, Except(b));
        assert Collections.Filter([b], Except(b)) == [];
      } else if u.id == b {
        Collections.FilterAppend(u.followers, [a], Except(a));
        Collections.FilterKeepsAll(u.followers, Except(a));
        assert Collections.Filter([a], Except(a)) == [];
      }
    }
    assert r.users == st.users;
  }

  // ---------------------------------------------------------------------
  // Every operation but registration keeps each user's id in place

  /** A verification toggle keeps ids unique and below the counter. */
  lemma ToggleUserVerificationKeepsValid(st: UserStore, id: UserId)
    requires Valid(st)
    ensures Valid(ToggleUserVerification(st, id))
  {
    var st' := ToggleUserVerification(st, id);
    assert forall i :: 0 <= i < |st.users| ==> st'.users[i].id == st.users[i].id;
    SameIdsKeepValid(st, st');
  }

  /** A premium toggle keeps ids unique and below the counter. */
  lemma ToggleUserPremiumKeepsValid(st: UserStore, id: UserId)
    requires Valid(st)
    ensures Valid(ToggleUserPremium(st, id))
  {
    var st' := ToggleUserPremium(st, id);
    assert forall i :: 0 <= i < |st.users| ==> st'.users[i].id == st.users[i].id;
    SameIdsKeepValid(st, st');
  }

  /** A profile edit keeps ids unique and below the counter. */
  lemma UpdateUserKeepsValid(st: UserStore, id: UserId, name: string, email: string)
    requires Valid(st)
    ensures Valid(UpdateUser(st, id, name, email).next)
  {
    var st' := UpdateUser(st, id, name, email).next;
    assert forall i :: 0 <= i < |st.users| ==> st'.users[i].id == st.users[i].id;
    SameIdsKeepValid(st, st');
  }

  /** A charge keeps ids unique and below the counter. */
  lemma SpendCreditKeepsValid(st: UserStore, id: UserId, amount: int)
    requires Valid(st)
    ensures Valid(SpendCredit(st, id, amount).next)
  {
    var st' := SpendCredit(st, id, amount).next;
    assert forall i :: 0 <= i < |st.users| ==> st'.users[i].id == st.users[i].id;
    SameIdsKeepValid(st, st');
  }

  /** A credit keeps ids unique and below the counter. */
  lemma AddCreditsKeepsValid(st: UserStore, id: UserId, amount: int)
    requires Valid(st)
    ensures Valid(AddCredits(st, id, amount).next)
  {
    var st' := AddCredits(st, id, amount).next;
    assert forall i :: 0 <= i < |st.users| ==> st'.users[i].id == st.users[i].id;
    SameIdsKeepValid(st, st');
  }

  /** A follow keeps ids unique and below the counter. */
  lemma FollowUserKeepsValid(st: UserStore, follower: UserId, target: UserId)
    requires Valid(st)
    ensures Valid(FollowUser(st, follower, target))
  {
    var st' := FollowUser(st, follower, target);
    assert forall i :: 0 <= i < |st.users| ==> st'.users[i].id == st.users[i].id;
    SameIdsKeepValid(st, st');
  }

  /** An unfollow keeps ids unique and below the counter. */
  lemma UnfollowUserKeepsValid(st: UserStore, follower: UserId, target: UserId)
    requires Valid(st)
    ensures Valid(UnfollowUser(st, follower, target))
  {
    var st' := UnfollowUser(st, follower, target);
    assert forall i :: 0 <= i < |st.users| ==> st'.users[i].id == st.users[i].id;
    SameIdsKeepValid(st, st');
  }
}
