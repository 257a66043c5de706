/** The ad catalog of `services/adService.ts`: creation with defaults,
    field-restricted edits, status and promotion, deletion, and the
    filter-then-sort queries. Author records are joined from a user store
    passed in by the caller. */
module Ads {
  import opened Wrappers
  import opened Text
  import Collections
  import Sorting
  import Users

  type AdId = int

  datatype AdStatus = Active | Sold

  /** A stored ad: the record without its joined `author`. */
  datatype Ad = Ad(
    id: AdId,
    title: string,
    description: string,
    price: int,
    governorate: string,
    images: seq<string>,
    postedAt: nat,
    userId: Users.UserId,
    phoneNumber: string,
    likes: int,
    status: AdStatus,
    isPromoted: bool)

  /** An ad as the queries return it, with its author's record. */
  datatype JoinedAd = JoinedAd(ad: Ad, author: Users.User)

  /** The caller's fields of `addAd`. */
  datatype AdDraft = AdDraft(
    title: string,
    description: string,
    price: int,
    governorate: string,
    images: seq<string>,
    userId: Users.UserId,
    phoneNumber: string)

  /** The fields `updateAd` may change. */
  datatype AdEdit = AdEdit(
    title: string,
    description: string,
    price: int,
    phoneNumber: string,
    governorate: string)

  /** The optional filter of `getAds`. */
  datatype AdFilter = AdFilter(governorate: Option<string>, searchTerm: Option<string>)

  datatype AdError = AdNotFound

  /** The module-level `adsData` array together with the `nextId` counter. */
  datatype AdStore = AdStore(ads: seq<Ad>, nextId: int)

  const InitialStore: AdStore := AdStore([], 1)

  ghost predicate UniqueIds(ads: seq<Ad>)
  {
    forall i, j :: 0 <= i < j < |ads| ==> ads[i].id != ads[j].id
  }

  /** Ids are unique and every id was handed out by the counter. */
  ghost predicate Valid(st: AdStore)
  {
    && UniqueIds(st.ads)
    && (forall i :: 0 <= i < |st.ads| ==> st.ads[i].id < st.nextId)
  }

  /** The catalog starts empty, and the first ad added gets id 1. */
  lemma InitialStoreValid()
    ensures Valid(InitialStore)
    ensures InitialStore.ads == [] && InitialStore.nextId == 1
  {
  }

  /** The stand-in author for an ad whose user no longer exists. */
  function DeletedAuthor(now: nat): (r: Users.User)
    ensures r.id == 0 && r.password.None? && r.email == "" && r.role == Users.Member
    ensures !r.isVerified && !r.isPremium && r.credits == 0 && r.followers == [] && r.following == []
    ensures r.joinedAt == now
  {
    Users.User(0, "مستخدم محذوف", "", None, false, false, now, 0, [], [], Users.Member)
  }

  /** `joinAdWithAuthor`: attaches the sanitised author, or the stand-in
      with id 0 when the ad's user is unknown. */
  function JoinAdWithAuthor(users: Users.UserStore, ad: Ad, now: nat): (r: JoinedAd)
    ensures r.ad == ad
    ensures r.author.password.None?
    ensures r.author.id == ad.userId || (r.author.id == 0 && forall u :: u in users.users ==> u.id != ad.userId)
    ensures (forall u :: u in users.users ==> u.id != ad.userId) ==> r.author == DeletedAuthor(now)
    ensures forall k ::
      (0 <= k < |users.users| && users.users[k].id == ad.userId
       && forall i :: 0 <= i < k ==> users.users[i].id != ad.userId)
      ==> r.author == Users.Sanitize(users.users[k])
  {
    match Users.GetUserById(users, ad.userId)
    case Some(u) => JoinedAd(ad, u)
    case None => JoinedAd(ad, DeletedAuthor(now))
  }

  /** With unique user ids, the author joined is exactly the ad's user. */
  lemma JoinFindsAuthor(users: Users.UserStore, ad: Ad, now: nat, k: nat)
    requires Users.Valid(users)
    requires k < |users.users| && users.users[k].id == ad.userId
    ensures JoinAdWithAuthor(users, ad, now).author == Users.Sanitize(users.users[k])
  {
    Users.GetUserByIdUnique(users, k);
  }

  function JoinAll(users: Users.UserStore, ads: seq<Ad>, now: nat): (r: seq<JoinedAd>)
    ensures |r| == |ads|
    ensures forall i :: 0 <= i < |ads| ==> r[i].ad == ads[i]
  {
    seq(|ads|, i requires 0 <= i < |ads| => JoinAdWithAuthor(users, ads[i], now))
  }

  /** JavaScript truthiness of an optional string: present and non-empty. */
  predicate Given(s: Option<string>)
  {
    s.Some? && s.value != ""
  }

  /** The search test: the term occurs, ignoring case, in title or description. */
  predicate MatchesTerm(ad: Ad, term: string)
  {
    Contains(ToLower(ad.title), ToLower(term)) || Contains(ToLower(ad.description), ToLower(term))
  }

  function InGovernorate(g: string): Ad -> bool
  {
    (ad: Ad) => ad.governorate == g
  }

  function Mentions(term: string): Ad -> bool
  {
    (ad: Ad) => MatchesTerm(ad, term)
  }

  /** The two filter stages of `getAds`, each applied only when given. */
  function FilterAds(ads: seq<Ad>, f: AdFilter): seq<Ad>
  {
    var byPlace := if Given(f.governorate) then Collections.Filter(ads, InGovernorate(f.governorate.value)) else ads;
    if Given(f.searchTerm) then Collections.Filter(byPlace, Mentions(f.searchTerm.value)) else byPlace
  }

  /** The reference test: an ad passes the filter when it is in the given
      governorate (if one is given) and mentions the given term (if one is
      given). */
  predicate Passes(ad: Ad, f: AdFilter)
  {
    && (Given(f.governorate) ==> ad.governorate == f.governorate.value)
    && (Given(f.searchTerm) ==> MatchesTerm(ad, f.searchTerm.value))
  }

  function PassesFilter(f: AdFilter): Ad -> bool
  {
    (ad: Ad) => Passes(ad, f)
  }

  /** The two-stage filter is the one-pass filter by `Passes`: it keeps
      exactly the passing ads, in their stored order. */
  lemma FilterAdsIsPasses(ads: seq<Ad>, f: AdFilter)
    ensures FilterAds(ads, f) == Collections.Filter(ads, PassesFilter(f))
  {
    var p := PassesFilter(f);
    if Given(f.governorate) && Given(f.searchTerm) {
      Collections.FilterFilter(ads, InGovernorate(f.governorate.value), Mentions(f.searchTerm.value), p);
    } else if Given(f.governorate) {
      Collections.FilterAgree(ads, InGovernorate(f.governorate.value), p);
    } else if Given(f.searchTerm) {
      Collections.FilterAgree(ads, Mentions(f.searchTerm.value), p);
    } else {
      Collections.FilterKeepsAll(ads, p);
    }
  }

  /** Without a governorate or term, or with empty ones, nothing is dropped. */
  lemma EmptyFilterKeepsAll(ads: seq<Ad>, f: AdFilter)
    requires !Given(f.governorate) && !Given(f.searchTerm)
    ensures FilterAds(ads, f) == ads
  {
  }

  /** The order of `getAds` and `getAdsByUserId`: promoted ads first, then
      newest first. */
  predicate PromotedThenNewest(a: JoinedAd, b: JoinedAd)
  {
    || (a.ad.isPromoted && !b.ad.isPromoted)
    || (a.ad.isPromoted == b.ad.isPromoted && a.ad.postedAt >= b.ad.postedAt)
  }

  /** The order of `getAllAdsForAdmin`: newest first. */
  predicate NewestFirst(a: JoinedAd, b: JoinedAd)
  {
    a.ad.postedAt >= b.ad.postedAt
  }

  lemma OrdersAreTotalPreorders()
    ensures Sorting.TotalPreorder(PromotedThenNewest)
    ensures Sorting.TotalPreorder(NewestFirst)
  {
  }

  /** `getAds`: the ads passing the filter, joined with their authors, promoted
      first and newest first. */
  function GetAds(st: AdStore, users: Users.UserStore, f: AdFilter, now: nat): (r: seq<JoinedAd>)
    ensures multiset(r) == multiset(JoinAll(users, FilterAds(st.ads, f), now))
  {
    Sorting.Sort(JoinAll(users, FilterAds(st.ads, f), now), PromotedThenNewest)
  }

  /** The joined list holds exactly the given ads, each with its author. */
  lemma JoinAllMembers(users: Users.UserStore, ads: seq<Ad>, now: nat)
    ensures forall x :: x in JoinAll(users, ads, now) ==> x.ad in ads && x == JoinAdWithAuthor(users, x.ad, now)
    ensures forall ad :: ad in ads ==> JoinAdWithAuthor(users, ad, now) in JoinAll(users, ads, now)
  {
    var r := JoinAll(users, ads, now);
    forall ad | ad in ads
      ensures JoinAdWithAuthor(users, ad, now) in r
    {
      var i :| 0 <= i < |ads| && ads[i] == ad;
      assert r[i] == JoinAdWithAuthor(users, ad, now);
    }
  }

  /** What `getAds` returns: every ad it lists is stored and passes the
      filter, and every stored ad that passes is listed. */
  lemma GetAdsContents(st: AdStore, users: Users.UserStore, f: AdFilter, now: nat)
    ensures forall x :: x in GetAds(st, users, f, now) ==> x.ad in st.ads && Passes(x.ad, f)
    ensures forall ad :: ad in st.ads && Passes(ad, f) ==>
              JoinAdWithAuthor(users, ad, now) in GetAds(st, users, f, now)
  {
    var kept := FilterAds(st.ads, f);
    FilterAdsIsPasses(st.ads, f);
    Collections.FilterMembers(st.ads, PassesFilter(f));
    JoinAllMembers(users, kept, now);
    Sorting.SortMembers(JoinAll(users, kept, now), PromotedThenNewest);
  }

  /** The promoted-first, newest-first order in plain words. */
  ghost predicate PromotedFirstNewestFirst(r: seq<JoinedAd>)
  {
    && (forall i, j :: 0 <= i < j < |r| && r[j].ad.isPromoted ==> r[i].ad.isPromoted)
    && (forall i, j :: 0 <= i < j < |r| && r[i].ad.isPromoted == r[j].ad.isPromoted ==>
          r[i].ad.postedAt >= r[j].ad.postedAt)
  }

  lemma SortedPromotedFirst(r: seq<JoinedAd>)
    requires Sorting.SortedBy(r, PromotedThenNewest)
    ensures PromotedFirstNewestFirst(r)
  {
    forall i, j | 0 <= i < j < |r|
      ensures PromotedThenNewest(r[i], r[j])
    {
    }
  }

  /** `getAds` lists every promoted ad before every other ad, each group
      newest first, and keeps the stored order of ads that tie. */
  lemma GetAdsOrdered(st: AdStore, users: Users.UserStore, f: AdFilter, now: nat, z: JoinedAd)
    ensures PromotedFirstNewestFirst(GetAds(st, users, f, now))
    ensures Sorting.TiedWith(GetAds(st, users, f, now), z, PromotedThenNewest)
         == Sorting.TiedWith(JoinAll(users, FilterAds(st.ads, f), now), z, PromotedThenNewest)
  {
    var joined := JoinAll(users, FilterAds(st.ads, f), now);
    OrdersAreTotalPreorders();
    Sorting.SortSorted(joined, PromotedThenNewest);
    SortedPromotedFirst(GetAds(st, users, f, now));
    Sorting.SortStable(joined, z, PromotedThenNewest);
  }

  function HasId(id: AdId): Ad -> bool
  {
    (ad: Ad) => ad.id == id
  }

  /** `getAdById`: the first ad with that id, joined with its author. */
  function GetAdById(st: AdStore, users: Users.UserStore, id: AdId, now: nat): (r: Option<JoinedAd>)
    ensures r.None? <==> forall ad :: ad in st.ads ==> ad.id != id
    ensures r.Some? ==> r.value.ad in st.ads && r.value.ad.id == id
    ensures r.Some? ==> r.value == JoinAdWithAuthor(users, r.value.ad, now)
  {
    match Collections.FirstIndex(st.ads, HasId(id))
    case None => None
    case Some(k) => Some(JoinAdWithAuthor(users, st.ads[k], now))
  }

  /** `addAd`: puts a new ad with the next id at the front of the store. The
      caller's fields are kept; likes start at 0, the status is active and
      the ad is not promoted. */
  function AddAd(st: AdStore, users: Users.UserStore, draft: AdDraft, now: nat): (r: Step<AdStore, JoinedAd>)
    ensures r.next.nextId == st.nextId + 1
    ensures r.next.ads == [r.out.ad] + st.ads
    ensures r.out == JoinAdWithAuthor(users, r.out.ad, now)
    ensures var ad := r.out.ad;
      && ad.id == st.nextId && ad.postedAt == now
      && ad.likes == 0 && ad.status == Active && !ad.isPromoted
      && ad.title == draft.title && ad.description == draft.description
      && ad.price == draft.price && ad.governorate == draft.governorate
      && ad.images == draft.images && ad.userId == draft.userId
      && ad.phoneNumber == draft.phoneNumber
  {
    var ad := Ad(st.nextId, draft.title, draft.description, draft.price, draft.governorate,
                 draft.images, now, draft.userId, draft.phoneNumber, 0, Active, false);
    Step(AdStore([ad] + st.ads, st.nextId + 1), JoinAdWithAuthor(users, ad, now))
  }

  /** An ad numbered with the counter, put in front, keeps the catalog valid
      once the counter moves past it. */
  lemma PrependFreshKeepsValid(st: AdStore, ad: Ad)
    requires Valid(st) && ad.id == st.nextId
    ensures Valid(AdStore([ad] + st.ads, st.nextId + 1))
  {
  }

  lemma AddAdKeepsValid(st: AdStore, users: Users.UserStore, draft: AdDraft, now: nat)
    requires Valid(st)
    ensures Valid(AddAd(st, users, draft, now).next)
  {
    var r := AddAd(st, users, draft, now);
    PrependFreshKeepsValid(st, r.out.ad);
    assert r.next == AdStore([r.out.ad] + st.ads, st.nextId + 1);
  }

  /** A new ad is found by its id straight away. */
  lemma AddThenGet(st: AdStore, users: Users.UserStore, draft: AdDraft, now: nat)
    ensures var r := AddAd(st, users, draft, now);
            GetAdById(r.next, users, st.nextId, now) == Some(r.out)
  {
    var r := AddAd(st, users, draft, now);
    assert HasId(st.nextId)(r.next.ads[0]);
  }

  /** `updateAd`'s change to one record: the editable fields replaced. */
  function Edit(ad: Ad, e: AdEdit): Ad
  {
    ad.(title := e.title, description := e.description, price := e.price,
        phoneNumber := e.phoneNumber, governorate := e.governorate)
  }

  /** `updateAd`: replaces title, description, price, phone number and
      governorate of the ads with that id; every other field (id, owner,
      images, status, likes, promotion, date) is kept. An unknown id fails
      with `AdNotFound` and changes nothing. */
  function UpdateAd(st: AdStore, users: Users.UserStore, id: AdId, e: AdEdit, now: nat)
    : (r: Step<AdStore, Result<JoinedAd, AdError>>)
    ensures r.next.nextId == st.nextId && |r.next.ads| == |st.ads|
    ensures forall i :: 0 <= i < |st.ads| ==>
      var (old_, new_) := (st.ads[i], r.next.ads[i]);
      && new_.id == old_.id && new_.userId == old_.userId && new_.images == old_.images
      && new_.status == old_.status && new_.likes == old_.likes
      && new_.isPromoted == old_.isPromoted && new_.postedAt == old_.postedAt
      && (old_.id == id ==>
            new_.title == e.title && new_.description == e.description && new_.price == e.price
            && new_.phoneNumber == e.phoneNumber && new_.governorate == e.governorate)
      && (old_.id != id ==> new_ == old_)
    ensures r.out.Err? <==> forall ad :: ad in st.ads ==> ad.id != id
    ensures r.out.Err? ==> r.next == st
    ensures r.out.Ok? ==> r.out.value.ad in r.next.ads && r.out.value.ad.id == id
    ensures r.out.Ok? ==> r.out.value == JoinAdWithAuthor(users, r.out.value.ad, now)
    ensures forall k ::
      (0 <= k < |st.ads| && st.ads[k].id == id
       && forall j :: k < j < |st.ads| ==> st.ads[j].id != id)
      ==> r.out == Ok(JoinAdWithAuthor(users, r.next.ads[k], now))
  {
    var ads := st.ads;
    var ads' := seq(|ads|, i requires 0 <= i < |ads| => if ads[i].id == id then Edit(ads[i], e) else ads[i]);
    match Collections.LastIndex(ads, HasId(id))
    case None =>
      assert ads' == ads;
      Step(st, Err(AdNotFound))
    case Some(k) =>
      assert HasId(id)(ads[k]);
      forall k' | 0 <= k' < |ads| && ads[k'].id == id && (forall j :: k' < j < |ads| ==> ads[j].id != id)
        ensures k' == k
      {
        Collections.LastIndexIsLast(ads, HasId(id), k');
      }
      Step(AdStore(ads', st.nextId), Ok(JoinAdWithAuthor(users, ads'[k], now)))
  }

  /** Applying the same edit twice is the same as applying it once. */
  lemma UpdateAdIdempotent(st: AdStore, users: Users.UserStore, id: AdId, e: AdEdit, now: nat)
    ensures var once := UpdateAd(st, users, id, e, now).next;
            UpdateAd(once, users, id, e, now).next == once
  {
    var once := UpdateAd(st, users, id, e, now).next;
    var twice := UpdateAd(once, users, id, e, now).next;
    assert twice.ads == once.ads;
  }

  /** `updateAdStatus`: sets the status of the ads with that id; an unknown
      id changes nothing. */
  function UpdateAdStatus(st: AdStore, id: AdId, status: AdStatus): (r: AdStore)
    ensures r.nextId == st.nextId && |r.ads| == |st.ads|
    ensures forall i :: 0 <= i < |st.ads| ==>
      && r.ads[i].(status := st.ads[i].status) == st.ads[i]
      && r.ads[i].status == (if st.ads[i].id == id then status else st.ads[i].status)
    ensures (forall ad :: ad in st.ads ==> ad.id != id) ==> r == st
  {
    var ads := st.ads;
    var ads' := seq(|ads|, i requires 0 <= i < |ads| => if ads[i].id == id then ads[i].(status := status) else ads[i]);
    if forall ad :: ad in ads ==> ad.id != id then
      assert ads' == ads;
      st
    else AdStore(ads', st.nextId)
  }

  /** `promoteAd`: marks the ads with that id promoted; an unknown id changes
      nothing. */
  function PromoteAd(st: AdStore, id: AdId): (r: AdStore)
    ensures r.nextId == st.nextId && |r.ads| == |st.ads|
    ensures forall i :: 0 <= i < |st.ads| ==>
      && r.ads[i].(isPromoted := st.ads[i].isPromoted) == st.ads[i]
      && r.ads[i].isPromoted == (st.ads[i].isPromoted || st.ads[i].id == id)
    ensures (forall ad :: ad in st.ads ==> ad.id != id) ==> r == st
  {
    var ads := st.ads;
    var ads' := seq(|ads|, i requires 0 <= i < |ads| => if ads[i].id == id then ads[i].(isPromoted := true) else ads[i]);
    if forall ad :: ad in ads ==> ad.id != id then
      assert ads' == ads;
      st
    else AdStore(ads', st.nextId)
  }

  /** Promoting twice is promoting once; setting the same status twice is
      setting it once. */
  lemma PromoteAndStatusIdempotent(st: AdStore, id: AdId, status: AdStatus)
    ensures PromoteAd(PromoteAd(st, id), id) == PromoteAd(st, id)
    ensures UpdateAdStatus(UpdateAdStatus(st, id, status), id, status) == UpdateAdStatus(st, id, status)
  {
    var p := PromoteAd(st, id);
    assert PromoteAd(p, id).ads == p.ads;
    var u := UpdateAdStatus(st, id, status);
    assert UpdateAdStatus(u, id, status).ads == u.ads;
  }

  /** Edits keep ids where they were. */
  lemma UpdateAdKeepsValid(st: AdStore, users: Users.UserStore, id: AdId, e: AdEdit, now: nat)
    requires Valid(st)
    ensures Valid(UpdateAd(st, users, id, e, now).next)
  {
    var u := UpdateAd(st, users, id, e, now).next;
    assert forall i :: 0 <= i < |st.ads| ==> u.ads[i].id == st.ads[i].id;
    SameIdsKeepValid(st, u);
  }

  /** Status changes keep ids where they were. */
  lemma UpdateAdStatusKeepsValid(st: AdStore, id: AdId, status: AdStatus)
    requires Valid(st)
    ensures Valid(UpdateAdStatus(st, id, status))
  {
    var u := UpdateAdStatus(st, id, status);
    assert forall i :: 0 <= i < |st.ads| ==> u.ads[i].id == st.ads[i].id;
    SameIdsKeepValid(st, u);
  }

  /** Promotion keeps ids where they were. */
  lemma PromoteAdKeepsValid(st: AdStore, id: AdId)
    requires Valid(st)
    ensures Valid(PromoteAd(st, id))
  {
    var u := PromoteAd(st, id);
    assert forall i :: 0 <= i < |st.ads| ==> u.ads[i].id == st.ads[i].id;
    SameIdsKeepValid(st, u);
  }

  /** A store whose ads keep their ids, position by position, keeps `Valid`. */
  lemma SameIdsKeepValid(st: AdStore, st': AdStore)
    requires Valid(st)
    requires st'.nextId == st.nextId && |st'.ads| == |st.ads|
    requires forall i :: 0 <= i < |st.ads| ==> st'.ads[i].id == st.ads[i].id
    ensures Valid(st')
  {
  }

  function Except(id: AdId): Ad -> bool
  {
    (ad: Ad) => ad.id != id
  }

  /** `deleteAd`: drops every ad with that id and keeps the others in order. */
  function DeleteAd(st: AdStore, id: AdId): (r: AdStore)
    ensures r.nextId == st.nextId
    ensures forall ad :: ad in r.ads ==> ad in st.ads && ad.id != id
    ensures forall ad :: ad in st.ads && ad.id != id ==> ad in r.ads
    ensures forall ad :: multiset(r.ads)[ad] == if ad.id == id then 0 else multiset(st.ads)[ad]
  {
    Collections.FilterMembers(st.ads, Except(id));
    Collections.FilterMultiset(st.ads, Except(id));
    AdStore(Collections.Filter(st.ads, Except(id)), st.nextId)
  }

  /** Deleting twice is deleting once. */
  lemma DeleteAdIdempotent(st: AdStore, id: AdId)
    ensures DeleteAd(DeleteAd(st, id), id) == DeleteAd(st, id)
  {
    Collections.FilterIdempotent(st.ads, Except(id));
  }

  /** Deletion keeps the relative order of the remaining ads: deleting from
      two halves is deleting from each half. */
  lemma DeleteAdKeepsOrder(a: seq<Ad>, b: seq<Ad>, nextId: int, id: AdId)
    ensures DeleteAd(AdStore(a + b, nextId), id).ads
         == DeleteAd(AdStore(a, nextId), id).ads + DeleteAd(AdStore(b, nextId), id).ads
  {
    Collections.FilterAppend(a, b, Except(id));
  }

  lemma {:induction false} FilterKeepsUniqueIds(ads: seq<Ad>, p: Ad -> bool)
    requires UniqueIds(ads)
    ensures UniqueIds(Collections.Filter(ads, p))
  {
    if |ads| > 0 {
      var tail := Collections.Filter(ads[1..], p);
      FilterKeepsUniqueIds(ads[1..], p);
      Collections.FilterMembers(ads[1..], p);
      forall k | 0 <= k < |tail|
        ensures tail[k].id != ads[0].id
      {
        assert tail[k] in ads[1..];
        var m :| 0 <= m < |ads[1..]| && ads[1..][m] == tail[k];
        assert ads[m + 1] == tail[k];
      }
    }
  }

  lemma DeleteAdKeepsValid(st: AdStore, id: AdId)
    requires Valid(st)
    ensures Valid(DeleteAd(st, id))
  {
    FilterKeepsUniqueIds(st.ads, Except(id));
  }

  /** Deleting the ad just added gives back the ads as they were. */
  lemma DeleteUndoesAdd(st: AdStore, users: Users.UserStore, draft: AdDraft, now: nat)
    requires Valid(st)
    ensures DeleteAd(AddAd(st, users, draft, now).next, st.nextId).ads == st.ads
  {
    var r := AddAd(st, users, draft, now);
    Collections.FilterAppend([r.out.ad], st.ads, Except(st.nextId));
    Collections.FilterKeepsAll(st.ads, Except(st.nextId));
  }

  /** `getAllAdsForAdmin`: every stored ad, joined, newest first. */
  function GetAllAdsForAdmin(st: AdStore, users: Users.UserStore, now: nat): (r: seq<JoinedAd>)
    ensures multiset(r) == multiset(JoinAll(users, st.ads, now))
  {
    Sorting.Sort(JoinAll(users, st.ads, now), NewestFirst)
  }

  lemma GetAllAdsForAdminOrdered(st: AdStore, users: Users.UserStore, now: nat, z: JoinedAd)
    ensures forall i, j :: 0 <= i < j < |GetAllAdsForAdmin(st, users, now)| ==>
      GetAllAdsForAdmin(st, users, now)[i].ad.postedAt >= GetAllAdsForAdmin(st, users, now)[j].ad.postedAt
    ensures Sorting.TiedWith(GetAllAdsForAdmin(st, users, now), z, NewestFirst)
         == Sorting.TiedWith(JoinAll(users, st.ads, now), z, NewestFirst)
  {
    OrdersAreTotalPreorders();
    Sorting.SortSorted(JoinAll(users, st.ads, now), NewestFirst);
    Sorting.SortStable(JoinAll(users, st.ads, now), z, NewestFirst);
  }

  function ByUser(userId: Users.UserId): Ad -> bool
  {
    (ad: Ad) => ad.userId == userId
  }

  /** `getAdsByUserId`: the user's ads, joined, promoted first then newest. */
  function GetAdsByUserId(st: AdStore, users: Users.UserStore, userId: Users.UserId, now: nat): (r: seq<JoinedAd>)
    ensures multiset(r) == multiset(JoinAll(users, Collections.Filter(st.ads, ByUser(userId)), now))
  {
    Sorting.Sort(JoinAll(users, Collections.Filter(st.ads, ByUser(userId)), now), PromotedThenNewest)
  }

  /** `getAdsByUserId` lists exactly the user's ads, in the order of `getAds`. */
  lemma GetAdsByUserIdContents(st: AdStore, users: Users.UserStore, userId: Users.UserId, now: nat)
    ensures forall x :: x in GetAdsByUserId(st, users, userId, now) ==> x.ad in st.ads && x.ad.userId == userId
    ensures forall ad :: ad in st.ads && ad.userId == userId ==>
              JoinAdWithAuthor(users, ad, now) in GetAdsByUserId(st, users, userId, now)
    ensures PromotedFirstNewestFirst(GetAdsByUserId(st, users, userId, now))
  {
    var kept := Collections.Filter(st.ads, ByUser(userId));
    var joined := JoinAll(users, kept, now);
    Collections.FilterMembers(st.ads, ByUser(userId));
    JoinAllMembers(users, kept, now);
    Sorting.SortMembers(joined, PromotedThenNewest);
    OrdersAreTotalPreorders();
    Sorting.SortSorted(joined, PromotedThenNewest);
    SortedPromotedFirst(GetAdsByUserId(st, users, userId, now));
  }
}
