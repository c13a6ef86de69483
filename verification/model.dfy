/** The records the search handler, the dashboard rows and the volunteer form
    share: users as their JSON form carries them, timeslots in epoch
    milliseconds, and the structured search query. */
module Model {
  import opened Optional

  /** Which half of a user's profile a search or an edit is about. */
  datatype Aspect = Mentoring | Tutoring

  function AspectName(a: Aspect): string {
    match a
    case Mentoring => "mentoring"
    case Tutoring => "tutoring"
  }

  /** An availability window; both ends are epoch milliseconds. */
  datatype Timeslot = Timeslot(from: int, to: int)

  datatype SocialType = Website | LinkedIn | Twitter | Facebook | Instagram | GitHub | IndieHackers

  datatype Social = Social(kind: SocialType, url: string)

  /** What a user offers (`subjects`) and looks for (`searches`) in one aspect. */
  datatype AspectInfo = AspectInfo(subjects: seq<string>, searches: seq<string>)

  datatype Verification = Verification(org: string, checks: seq<string>, notes: string)

  /** A user as its JSON form carries it. */
  datatype User = User(
    id: string,
    name: string,
    email: string,
    phone: string,
    photo: string,
    bio: string,
    orgs: seq<string>,
    availability: seq<Timeslot>,
    mentoring: AspectInfo,
    tutoring: AspectInfo,
    socials: seq<Social>,
    langs: seq<string>,
    parents: seq<string>,
    visible: bool,
    verifications: seq<Verification>)

  function AspectOf(u: User, a: Aspect): AspectInfo {
    match a
    case Mentoring => u.mentoring
    case Tutoring => u.tutoring
  }

  /** A selectable option of a search filter: a caption shown to people and the
      value that goes into the filter string. */
  datatype FilterOption = FilterOption(caption: string, value: string)

  /** The structured search request. `visible` is unset when the request
      does not filter on visibility. */
  datatype Query = Query(
    aspect: Aspect,
    subjects: seq<FilterOption>,
    langs: seq<FilterOption>,
    checks: seq<FilterOption>,
    orgs: seq<FilterOption>,
    tags: seq<FilterOption>,
    availability: seq<Timeslot>,
    visible: Option<bool>)
}
