/** The volunteer sign-up form's record updates: the social links, kept one
    per type and edited by replacing the first link of a type or appending
    one; the placeholder link offered when a social field gets the focus; and
    the effect that puts the organisation the form was opened for into the
    user's organisations. */
module VolunteerForm {
  import opened Optional
  import opened Text
  import opened Model

  // Social links.

  /** `getSocialIndex`: the position of the first link of a type, or -1. */
  function SocialIndex(socials: seq<Social>, kind: SocialType): (idx: int)
    ensures -1 <= idx < |socials|
    ensures idx >= 0 ==> socials[idx].kind == kind && forall j :: 0 <= j < idx ==> socials[j].kind != kind
    ensures idx < 0 <==> forall j :: 0 <= j < |socials| ==> socials[j].kind != kind
    decreases |socials|
  {
    if |socials| == 0 then -1
    else if socials[0].kind == kind then 0
    else
      var k := SocialIndex(socials[1..], kind);
      if k < 0 then -1 else k + 1
  }

  predicate HasSocial(socials: seq<Social>, kind: SocialType) {
    SocialIndex(socials, kind) >= 0
  }

  /** `getSocial`: the url of the first link of a type, or the empty string. */
  function GetSocial(socials: seq<Social>, kind: SocialType): (url: string)
    ensures (forall j :: 0 <= j < |socials| ==> socials[j].kind != kind) ==> url == ""
    ensures forall j :: (0 <= j < |socials| && socials[j].kind == kind
                         && forall i :: 0 <= i < j ==> socials[i].kind != kind) ==> url == socials[j].url
  {
    var idx := SocialIndex(socials, kind);
    if idx >= 0 then socials[idx].url else ""
  }

  /** `updateSocial`: the first link of the type gets the new url, or a link
      is appended when there is none. */
  function UpdateSocial(socials: seq<Social>, kind: SocialType, url: string): (r: seq<Social>)
    ensures HasSocial(socials, kind) ==> |r| == |socials|
    ensures !HasSocial(socials, kind) ==> r == socials + [Social(kind, url)]
    ensures forall j :: 0 <= j < |socials| && j != SocialIndex(socials, kind) ==> r[j] == socials[j]
    ensures HasSocial(socials, kind) ==> r[SocialIndex(socials, kind)] == Social(kind, url)
  {
    var idx := SocialIndex(socials, kind);
    if idx >= 0 then socials[idx := Social(kind, url)] else socials + [Social(kind, url)]
  }

  /** Reading a type back after updating it gives the new url. */
  lemma GetAfterUpdate(socials: seq<Social>, kind: SocialType, url: string)
    ensures GetSocial(UpdateSocial(socials, kind, url), kind) == url
    ensures HasSocial(UpdateSocial(socials, kind, url), kind)
  {
    var r := UpdateSocial(socials, kind, url);
    var idx := SocialIndex(socials, kind);
    if idx < 0 {
      assert r[|socials|].kind == kind;
    } else {
      assert r[idx].kind == kind;
    }
  }

  /** The first link of a type is at `a` when the link there has the type
      and none before does. */
  lemma {:induction false} SocialIndexAt(socials: seq<Social>, kind: SocialType, a: int)
    requires 0 <= a < |socials| && socials[a].kind == kind
    requires forall j :: 0 <= j < a ==> socials[j].kind != kind
    ensures SocialIndex(socials, kind) == a
    decreases a
  {
    if a > 0 {
      SocialIndexAt(socials[1..], kind, a - 1);
    }
  }

  /** Updating one type leaves every other type's url and presence as they
      were. */
  lemma UpdateLeavesOtherTypes(socials: seq<Social>, kind: SocialType, url: string, other: SocialType)
    requires other != kind
    ensures SocialIndex(UpdateSocial(socials, kind, url), other) == SocialIndex(socials, other)
    ensures GetSocial(UpdateSocial(socials, kind, url), other) == GetSocial(socials, other)
  {
    var r := UpdateSocial(socials, kind, url);
    var idx := SocialIndex(socials, kind);
    forall i | 0 <= i < |r|
      ensures r[i].kind == other <==> i < |socials| && socials[i].kind == other
    {
      if i < |socials| && i != idx {
        assert r[i] == socials[i];
      }
    }
    var j := SocialIndex(socials, other);
    SameKindsSameIndex(socials, r, other);
    if j >= 0 {
      assert j != idx;
      assert r[j] == socials[j];
    }
  }

  /** Two lists with the links of a type at the same places agree on where
      the first of them is. */
  lemma SameKindsSameIndex(a: seq<Social>, b: seq<Social>, kind: SocialType)
    requires |a| <= |b|
    requires forall i :: 0 <= i < |b| ==> (b[i].kind == kind <==> i < |a| && a[i].kind == kind)
    ensures SocialIndex(b, kind) == SocialIndex(a, kind)
  {
    var j := SocialIndex(a, kind);
    if j >= 0 {
      SocialIndexAt(b, kind, j);
    } else {
      assert forall i :: 0 <= i < |b| ==> b[i].kind != kind;
    }
  }

  /** Updating a type twice with the same url is updating it once. */
  lemma UpdateSocialIdempotent(socials: seq<Social>, kind: SocialType, url: string)
    ensures UpdateSocial(UpdateSocial(socials, kind, url), kind, url) == UpdateSocial(socials, kind, url)
  {
    var r := UpdateSocial(socials, kind, url);
    GetAfterUpdate(socials, kind, url);
    var idx := SocialIndex(socials, kind);
    var k := if idx >= 0 then idx else |socials|;
    assert r[k] == Social(kind, url);
    forall j | 0 <= j < k
      ensures r[j].kind != kind
    {
      assert r[j] == socials[j];
    }
    assert SocialIndex(r, kind) == k;
  }

  // The placeholder link.

  /** The handle guessed from a name: the name with its first space removed,
      in lower case, or "yourname" for an empty name. */
  function PlaceholderName(name: string): (handle: string)
    ensures name == "" ==> handle == "yourname"
    ensures name != "" ==> |handle| == |name| - (if ' ' in name then 1 else 0)
    ensures forall i :: 0 <= i < |handle| ==> !IsUpper(handle[i])
    ensures name != "" && ' ' !in name ==> forall i :: 0 <= i < |handle| ==> handle[i] == LowerChar(name[i])
    ensures name != "" && ' ' in name ==>
              forall i {:trigger handle[i]} :: 0 <= i < |handle| ==>
                handle[i] == LowerChar(if i < IndexOf(name, ' ') then name[i] else name[i + 1])
  {
    if name != "" then
      var h := ToLower(RemoveFirst(name, ' '));
      PlaceholderChars(name, h);
      h
    else "yourname"
  }

  /** The lower-cased characters of a name with its first space removed. */
  lemma PlaceholderChars(name: string, h: string)
    requires h == ToLower(RemoveFirst(name, ' '))
    ensures |h| == |name| - (if ' ' in name then 1 else 0)
    ensures forall i :: 0 <= i < |h| ==> !IsUpper(h[i])
    ensures ' ' !in name ==> forall i :: 0 <= i < |h| ==> h[i] == LowerChar(name[i])
    ensures ' ' in name ==>
              forall i {:trigger h[i]} :: 0 <= i < |h| ==>
                h[i] == LowerChar(if i < IndexOf(name, ' ') then name[i] else name[i + 1])
  {
    var t := RemoveFirst(name, ' ');
    RemoveFirstAt(name, ' ');
    forall i | 0 <= i < |h|
      ensures h[i] == LowerChar(t[i])
    {
    }
  }

  /** A one-space name loses its space; a name of several words keeps the
      spaces after the first. */
  lemma PlaceholderNameSpaces(name: string)
    requires name != ""
    ensures (' ' in PlaceholderName(name)) <==> ' ' in name && ' ' in name[IndexOf(name, ' ') + 1..]
  {
    ToLowerKeepsSpaces(RemoveFirst(name, ' '));
    if ' ' in name {
      RemoveFirstLeaves(name, ' ');
    }
  }

  /** The link a field offers for a handle. */
  function PlaceholderUrl(kind: SocialType, handle: string): string {
    match kind
    case Website => "https://" + handle + ".com"
    case LinkedIn => "https://linkedin.com/in/" + handle
    case Twitter => "https://twitter.com/" + handle
    case Facebook => "https://facebook.com/" + handle
    case Instagram => "https://instagram.com/" + handle
    case GitHub => "https://github.com/" + handle
    case IndieHackers => "https://indiehackers.com/" + handle
  }

  /** Giving a social field the focus: a user without a link of that type is
      given the placeholder link; a user with one is left alone (`None`: no
      update is made). */
  function FocusSocial(user: User, kind: SocialType): (r: Option<User>)
    ensures r.None? <==> HasSocial(user.socials, kind)
    ensures r.Some? ==> r.value == user.(socials := user.socials + [Social(kind, PlaceholderUrl(kind, PlaceholderName(user.name)))])
  {
    if HasSocial(user.socials, kind) then None
    else Some(user.(socials := UpdateSocial(user.socials, kind, PlaceholderUrl(kind, PlaceholderName(user.name)))))
  }

  /** After the focus the field shows a link, and focusing again changes
      nothing. */
  lemma FocusSocialOnce(user: User, kind: SocialType)
    ensures FocusSocial(user, kind).Some? ==> HasSocial(FocusSocial(user, kind).value.socials, kind)
    ensures FocusSocial(user, kind).Some? ==> FocusSocial(FocusSocial(user, kind).value, kind).None?
  {
    if FocusSocial(user, kind).Some? {
      GetAfterUpdate(user.socials, kind, PlaceholderUrl(kind, PlaceholderName(user.name)));
    }
  }

  // The organisation the form was opened for.

  /** The effect on the user's organisations: nothing without an organisation
      (`None`: no update is made); otherwise an update whose list holds the
      organisation, appended at the end when it was missing, the list as it
      was when it was there. */
  function JoinOrg(user: User, org: Option<string>): (r: Option<User>)
    ensures r.None? <==> org.None? || org.value == ""
    ensures r.Some? ==> r.value == user.(orgs := if org.value in user.orgs then user.orgs else user.orgs + [org.value])
  {
    if org.None? || org.value == "" then None
    else
      var orgs := user.orgs;
      var idx := IndexOfOrg(orgs, org.value);
      if idx < 0 then Some(user.(orgs := orgs + [org.value]))
      else
        var updated := orgs[..idx] + [org.value] + orgs[idx + 1..];
        assert updated == orgs by {
          assert orgs == orgs[..idx] + [orgs[idx]] + orgs[idx + 1..];
        }
        Some(user.(orgs := updated))
  }

  /** `orgs.indexOf(org)`. */
  function IndexOfOrg(orgs: seq<string>, org: string): (idx: int)
    ensures -1 <= idx < |orgs|
    ensures idx >= 0 ==> orgs[idx] == org
    ensures idx < 0 <==> org !in orgs
    decreases |orgs|
  {
    if |orgs| == 0 then -1
    else if orgs[0] == org then 0
    else
      var k := IndexOfOrg(orgs[1..], org);
      if k < 0 then -1 else k + 1
  }

  /** After the effect the organisation is in the list, and running the
      effect again on the updated user yields that same user. */
  lemma JoinOrgIdempotent(user: User, org: Option<string>)
    requires JoinOrg(user, org).Some?
    ensures org.value in JoinOrg(user, org).value.orgs
    ensures JoinOrg(JoinOrg(user, org).value, org) == JoinOrg(user, org)
  {
  }
}
