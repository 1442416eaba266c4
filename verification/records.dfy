/** The people the chart is drawn from (`orgData`), as the chart reads them. */
module Records {
  import opened Optional

  /** An email address as the highlight sets hold it; a record may have none. */
  type Email = Option<string>

  /** One person of `orgData`. Text fields may be missing; `aiEngagement` may be undefined. */
  datatype User = User(
    name: Option<string>,
    title: Option<string>,
    department: Option<string>,
    location: Option<string>,
    email: Email,
    hasLicense: bool,
    aiEngagement: Option<real>)

  /** What `GraphAPI.getStarRating` returns for an engagement score: its `stars` and its
      `label` (here `caption`). */
  datatype Rating = Rating(stars: string, caption: string)

  /** JavaScript's `v || fallback` on an optional string: a missing or empty string
      falls back. */
  function OrElse(v: Option<string>, fallback: string): (r: string)
    ensures v.Some? && v.value != [] ==> r == v.value
    ensures v.None? || v.value == [] ==> r == fallback
  {
    if v.Some? && v.value != [] then v.value else fallback
  }
}
