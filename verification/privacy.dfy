/** What the user search handler returns to its caller: the users it may
    see, in full when they share an organisation with the caller, and
    otherwise cut down to a public profile with a first name and a last
    initial and no contact details. */
module Privacy {
  import opened Optional
  import opened Text
  import opened Model
  import opened SearchMerge

  /** What the `authorization` header yields: no header, a token the identity
      provider rejects, or the verified user id. */
  datatype Auth = NoHeader | Rejected | Verified(uid: string)

  /** An organisation document: its id and its members' user ids. */
  datatype Org = Org(id: string, members: seq<string>)

  /** The ids of the organisations the caller belongs to, as the membership
      lookup returns them; none for a missing or rejected token. */
  function CallerOrgs(auth: Auth, orgs: seq<Org>): (ids: seq<string>)
    ensures forall id :: id in ids <==>
              auth.Verified? && exists o :: o in orgs && o.id == id && auth.uid in o.members
    decreases |orgs|
  {
    if !auth.Verified? || |orgs| == 0 then []
    else
      var rest := CallerOrgs(auth, orgs[1..]);
      assert forall o :: o in orgs <==> o == orgs[0] || o in orgs[1..];
      if auth.uid in orgs[0].members then [orgs[0].id] + rest else rest
  }

  /** `callerOrgs.some(id => userOrgs.indexOf(id) >= 0)`. */
  function SharesOrg(callerOrgs: seq<string>, userOrgs: seq<string>): (b: bool)
    ensures b <==> exists o :: o in callerOrgs && o in userOrgs
    decreases |callerOrgs|
  {
    if |callerOrgs| == 0 then false
    else
      assert forall o :: o in callerOrgs <==> o == callerOrgs[0] || o in callerOrgs[1..];
      callerOrgs[0] in userOrgs || SharesOrg(callerOrgs[1..], userOrgs)
  }

  /** The initial of the last name; JavaScript renders the missing first
      character of an empty token as "undefined". */
  function Initial(token: string): string {
    if |token| > 0 then [token[0]] else "undefined"
  }

  /** The name as the index may show it: the first space-separated token, a
      space, the first character of the last token, and a full stop. */
  function FirstNameAndLastInitial(name: string): (r: string)
    ensures r == FirstToken(name, ' ') + " " + Initial(LastToken(name, ' ')) + "."
  {
    var split := Split(name, ' ');
    SplitFirstToken(name, ' ');
    SplitLastToken(name, ' ');
    split[0] + " " + Initial(split[|split| - 1]) + "."
  }

  /** A first and a last name: the first name and the last initial, as in
      "Nicholas Chiang" becoming "Nicholas C.". */
  lemma TwoWordName(first: string, last: string)
    requires ' ' !in first && ' ' !in last && |last| > 0
    ensures FirstNameAndLastInitial(first + " " + last) == first + " " + [last[0]] + "."
  {
    var name := first + " " + last;
    assert name[..|first|] == first;
    assert name[|first| + 1..] == last;
    OneSeparatorTokens(name, ' ', |first|);
  }

  /** A name without a space is its own first and last token: "Madonna"
      becomes "Madonna M.". */
  lemma OneWordName(name: string)
    requires |name| > 0 && ' ' !in name
    ensures FirstNameAndLastInitial(name) == name + " " + [name[0]] + "."
  {
    NoSeparatorTokens(name, ' ');
  }

  /** A trailing space leaves an empty last token, whose missing first
      character renders as "undefined": "Nicholas " becomes
      "Nicholas undefined.". */
  lemma TrailingSpaceName(first: string)
    requires ' ' !in first
    ensures FirstNameAndLastInitial(first + " ") == first + " undefined."
  {
    var name := first + " ";
    assert name[..|first|] == first;
    assert name[|first| + 1..] == "";
    OneSeparatorTokens(name, ' ', |first|);
  }

  /** The truncated name never holds more of the name than its first token
      and one character of the last one. */
  lemma TruncatedNameKeepsFirstToken(name: string)
    ensures StartsWith(FirstNameAndLastInitial(name), FirstToken(name, ' ') + " ")
    ensures StartsWith(name, FirstToken(name, ' '))
    ensures ' ' !in FirstToken(name, ' ')
  {
  }

  /** A user as the response carries it: the whole record, or only the public
      fields under the truncated name. */
  datatype UserView =
    | Full(user: User)
    | Truncated(
        name: string,
        photo: string,
        bio: string,
        orgs: seq<string>,
        availability: seq<Timeslot>,
        mentoring: AspectInfo,
        tutoring: AspectInfo,
        socials: seq<Social>,
        langs: seq<string>,
        id: string)

  function ViewId(v: UserView): string {
    match v
    case Full(u) => u.id
    case Truncated(_, _, _, _, _, _, _, _, _, id) => id
  }

  /** A user is listed when it is visible or shares an organisation with the
      caller. */
  predicate Listed(u: User, callerOrgs: seq<string>) {
    u.visible || SharesOrg(callerOrgs, u.orgs)
  }

  /** The public fields of a user under the truncated name. */
  function PublicProfile(u: User): UserView {
    Truncated(FirstNameAndLastInitial(u.name), u.photo, u.bio, u.orgs,
              u.availability, u.mentoring, u.tutoring, u.socials, u.langs, u.id)
  }

  /** The record returned for a listed user. */
  function Project(u: User, callerOrgs: seq<string>): (v: UserView)
    ensures v.Full? <==> exists o :: o in callerOrgs && o in u.orgs
    ensures v.Full? ==> v.user == u
    ensures v.Truncated? ==>
              && v.name == FirstNameAndLastInitial(u.name)
              && v.photo == u.photo && v.bio == u.bio && v.orgs == u.orgs
              && v.availability == u.availability
              && v.mentoring == u.mentoring && v.tutoring == u.tutoring
              && v.socials == u.socials && v.langs == u.langs
    ensures ViewId(v) == u.id
  {
    if SharesOrg(callerOrgs, u.orgs) then Full(u) else PublicProfile(u)
  }

  /** The filter and projection over the merged users, in their order. */
  function ListUsers(users: seq<User>, callerOrgs: seq<string>): (r: seq<UserView>)
    ensures |r| <= |users|
    ensures forall k :: 0 <= k < |r| ==> r[k].Full? ==> SharesOrg(callerOrgs, r[k].user.orgs)
    decreases |users|
  {
    if |users| == 0 then []
    else
      var u := users[|users| - 1];
      ListUsers(users[..|users| - 1], callerOrgs) + (if Listed(u, callerOrgs) then [Project(u, callerOrgs)] else [])
  }

  /** Every entry of the response is the projection of a listed user. */
  lemma {:induction false} ListUsersSound(users: seq<User>, callerOrgs: seq<string>)
    ensures forall k :: 0 <= k < |ListUsers(users, callerOrgs)| ==>
              exists i :: 0 <= i < |users| && Listed(users[i], callerOrgs)
                          && ListUsers(users, callerOrgs)[k] == Project(users[i], callerOrgs)
    decreases |users|
  {
    if |users| > 0 {
      var init := users[..|users| - 1];
      var u := users[|users| - 1];
      ListUsersSound(init, callerOrgs);
      var prev := ListUsers(init, callerOrgs);
      var r := ListUsers(users, callerOrgs);
      assert r == prev + (if Listed(u, callerOrgs) then [Project(u, callerOrgs)] else []);
      forall k | 0 <= k < |r|
        ensures exists i :: 0 <= i < |users| && Listed(users[i], callerOrgs) && r[k] == Project(users[i], callerOrgs)
      {
        if k < |prev| {
          assert r[k] == prev[k];
          var i :| 0 <= i < |init| && Listed(init[i], callerOrgs) && prev[k] == Project(init[i], callerOrgs);
          assert users[i] == init[i];
        } else {
          assert r[k] == Project(users[|users| - 1], callerOrgs);
        }
      }
    } else {
      assert ListUsers(users, callerOrgs) == [];
    }
  }

  /** Every listed user's projection is in the response. */
  lemma {:induction false} ListUsersComplete(users: seq<User>, callerOrgs: seq<string>)
    ensures forall i :: 0 <= i < |users| && Listed(users[i], callerOrgs) ==>
              Project(users[i], callerOrgs) in ListUsers(users, callerOrgs)
    decreases |users|
  {
    if |users| > 0 {
      var init := users[..|users| - 1];
      var u := users[|users| - 1];
      ListUsersComplete(init, callerOrgs);
      var prev := ListUsers(init, callerOrgs);
      var r := ListUsers(users, callerOrgs);
      assert r == prev + (if Listed(u, callerOrgs) then [Project(u, callerOrgs)] else []);
      forall i | 0 <= i < |users| && Listed(users[i], callerOrgs)
        ensures Project(users[i], callerOrgs) in r
      {
        if i < |init| {
          assert users[i] == init[i];
          assert Project(init[i], callerOrgs) in prev;
        }
      }
    }
  }

  /** Listing commutes with concatenation: the response keeps the merged
      order, and each user's fate depends on that user alone. */
  lemma {:induction false} ListUsersAppend(a: seq<User>, b: seq<User>, callerOrgs: seq<string>)
    ensures ListUsers(a + b, callerOrgs) == ListUsers(a, callerOrgs) + ListUsers(b, callerOrgs)
    decreases |b|
  {
    if |b| == 0 {
      assert a + b == a;
    } else {
      var b' := b[..|b| - 1];
      assert (a + b)[..|a + b| - 1] == a + b';
      ListUsersAppend(a, b', callerOrgs);
    }
  }

  /** One user's entry in the response depends on that user alone. */
  lemma ListUsersSingle(u: User, callerOrgs: seq<string>)
    ensures ListUsers([u], callerOrgs) == if Listed(u, callerOrgs) then [Project(u, callerOrgs)] else []
  {
  }

  /** The public profiles of the visible users, in order: what a caller who
      shares no organisation with anyone may see. */
  function PublicProfiles(users: seq<User>): (r: seq<UserView>)
    ensures forall k :: 0 <= k < |r| ==> r[k].Truncated?
    decreases |users|
  {
    if |users| == 0 then []
    else
      var u := users[|users| - 1];
      PublicProfiles(users[..|users| - 1]) + (if u.visible then [PublicProfile(u)] else [])
  }

  /** A caller without organisations sees exactly the public profiles of the
      visible users. */
  lemma {:induction false} AnonymousSeesPublicProfiles(users: seq<User>)
    ensures ListUsers(users, []) == PublicProfiles(users)
    decreases |users|
  {
    if |users| > 0 {
      AnonymousSeesPublicProfiles(users[..|users| - 1]);
    }
  }

  /** Turns a merged hit into the user it stands for; the handler's duplicate
      check compares this id with the hit's object id. */
  function Hydrate(h: SearchHit): (u: User)
    ensures u.id == h.objectID
  {
    h.record.(id := h.objectID)
  }

  function HydrateAll(hits: seq<SearchHit>): (users: seq<User>)
    ensures |users| == |hits|
    ensures forall i :: 0 <= i < |hits| ==> users[i] == Hydrate(hits[i])
  {
    seq(|hits|, i requires 0 <= i < |hits| => Hydrate(hits[i]))
  }

  predicate UniqueUserIds(users: seq<User>) {
    forall i, j :: 0 <= i < j < |users| ==> users[i].id != users[j].id
  }

  predicate UniqueViewIds(views: seq<UserView>) {
    forall i, j :: 0 <= i < j < |views| ==> ViewId(views[i]) != ViewId(views[j])
  }

  /** Every listed view carries the id of a user it came from. */
  lemma ViewIdsFromUsers(users: seq<User>, callerOrgs: seq<string>)
    ensures forall k :: 0 <= k < |ListUsers(users, callerOrgs)| ==>
              exists i :: 0 <= i < |users| && ViewId(ListUsers(users, callerOrgs)[k]) == users[i].id
  {
    var r := ListUsers(users, callerOrgs);
    ListUsersSound(users, callerOrgs);
    forall k | 0 <= k < |r|
      ensures exists i :: 0 <= i < |users| && ViewId(r[k]) == users[i].id
    {
      assert r[k] in r;
      var i :| 0 <= i < |users| && Listed(users[i], callerOrgs) && r[k] == Project(users[i], callerOrgs);
      assert ViewId(r[k]) == users[i].id;
    }
  }

  lemma {:induction false} ListUsersKeepsIdsUnique(users: seq<User>, callerOrgs: seq<string>)
    requires UniqueUserIds(users)
    ensures UniqueViewIds(ListUsers(users, callerOrgs))
    decreases |users|
  {
    if |users| > 0 {
      var init := users[..|users| - 1];
      var u := users[|users| - 1];
      assert UniqueUserIds(init) by {
        forall i, j | 0 <= i < j < |init| ensures init[i].id != init[j].id {
          assert init[i] == users[i] && init[j] == users[j];
        }
      }
      ListUsersKeepsIdsUnique(init, callerOrgs);
      ViewIdsFromUsers(init, callerOrgs);
      var prev := ListUsers(init, callerOrgs);
      forall k | 0 <= k < |prev|
        ensures ViewId(prev[k]) != u.id
      {
        var i :| 0 <= i < |init| && ViewId(prev[k]) == init[i].id;
        assert init[i] == users[i];
      }
      var tail := if Listed(u, callerOrgs) then [Project(u, callerOrgs)] else [];
      assert ListUsers(users, callerOrgs) == prev + tail;
    }
  }

  /** The whole handler after the searches: merge the outcomes, resolve the
      caller's organisations, filter and project. The response never lists a
      user twice. */
  function ListUsersResponse(outcomes: seq<Outcome>, auth: Auth, orgs: seq<Org>): (r: seq<UserView>)
    ensures UniqueViewIds(r)
    ensures forall k :: 0 <= k < |r| ==> ViewId(r[k]) in Ids(Successful(outcomes))
    ensures !auth.Verified? ==> forall k :: 0 <= k < |r| ==> r[k].Truncated?
  {
    var hits := SearchUsers(outcomes);
    SearchUsersIsFirstOccurrences(outcomes);
    var users := HydrateAll(hits);
    assert UniqueUserIds(users);
    ListUsersKeepsIdsUnique(users, CallerOrgs(auth, orgs));
    ViewIdsFromUsers(users, CallerOrgs(auth, orgs));
    var r := ListUsers(users, CallerOrgs(auth, orgs));
    assert forall i :: 0 <= i < |users| ==> users[i].id in Ids(hits);
    r
  }
}
