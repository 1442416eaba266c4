/** How a node or a link is drawn from its record and the highlight: opacities, stroke and
    fill colours, the label, and the guard of the link path. */
module Presentation {
  import opened Optional
  import opened Records
  import opened Highlight

  /** A CSS colour as the chart writes it. */
  type Colour = string

  const LicensedGreen: Colour := "#00a854"
  const UnlicensedRed: Colour := "#dc3545"
  const NoLicenseGrey: Colour := "#f0f0f0"

  /** `getNodeOpacity`: full with no highlight or for a highlighted email, faded
      otherwise. */
  function NodeOpacity(nodes: Option<set<Email>>, email: Email): (r: real)
    ensures r == 1.0 || r == 0.2
    ensures r == 1.0 <==> nodes.None? || email in nodes.value
  {
    if nodes.None? then 1.0
    else if email in nodes.value then 1.0 else 0.2
  }

  /** `getLinkOpacity`: full with no highlight; otherwise strong when either end is
      highlighted and faint when neither is. */
  function LinkOpacity(nodes: Option<set<Email>>, source: Email, target: Email): (r: real)
    ensures nodes.None? ==> r == 1.0
    ensures nodes.Some? ==> r == 0.6 || r == 0.1
    ensures nodes.Some? ==> (r == 0.6 <==> source in nodes.value || target in nodes.value)
  {
    if nodes.None? then 1.0
    else if source in nodes.value || target in nodes.value then 0.6 else 0.1
  }

  /** The job-title line's `fill-opacity`, seven tenths of the node's. */
  function TitleOpacity(nodes: Option<set<Email>>, email: Email): (r: real)
    ensures r == 0.7 || r == 0.14
    ensures r == 0.7 <==> nodes.None? || email in nodes.value
    ensures r < NodeOpacity(nodes, email)
  {
    NodeOpacity(nodes, email) * 0.7
  }

  /** Under a highlight, a link is strong exactly when one of its ends is drawn at full
      opacity, and every link is fainter than a highlighted node. */
  lemma LinkFollowsEnds(nodes: Option<set<Email>>, source: Email, target: Email)
    requires nodes.Some?
    ensures (LinkOpacity(nodes, source, target) == 0.6) <==>
      (NodeOpacity(nodes, source) == 1.0 || NodeOpacity(nodes, target) == 1.0)
    ensures LinkOpacity(nodes, source, target) < 1.0
  {
  }

  /** With no highlight, every node and every link is drawn in full. */
  lemma ClearedDrawsAllInFull(email: Email, source: Email, target: Email)
    ensures NodeOpacity(Cleared.nodes, email) == 1.0
    ensures LinkOpacity(Cleared.nodes, source, target) == 1.0
  {
  }

  /** After a department is chosen (and not chosen again), a person is drawn in full
      exactly when somebody of that department shares their email, provided the
      department has anybody; an empty department highlights nothing and fades nothing. */
  lemma DepartmentOpacity(st: State, org: seq<User>, department: string, u: User)
    requires st.department != Some(department)
    ensures var nodes := AfterDepartment(st, org, department).nodes;
      (NodeOpacity(nodes, u.email) == 1.0) <==>
      ((forall v :: v in org ==> v.department != Some(department)) ||
       exists v :: v in org && v.department == Some(department) && v.email == u.email)
  {
    var nodes := AfterDepartment(st, org, department).nodes;
    if nodes.Some? && exists v :: v in org && v.department == Some(department) && v.email == u.email {
      assert u.email in nodes.value;
    }
  }

  /** `getNodeStroke`: green for a licensed person, red otherwise. */
  function Stroke(u: User): (r: Colour)
    ensures r == LicensedGreen <==> u.hasLicense
    ensures r == LicensedGreen || r == UnlicensedRed
  {
    if u.hasLicense then LicensedGreen else UnlicensedRed
  }

  /** The value of the colour selector. */
  datatype ColourMode = ByLicense | ByLevel | ByDepartment

  /** `getNodeColor`, with the selector's value as `mode` and the two colour scales as
      `levelColour` and `departmentColour`. */
  function Fill(mode: ColourMode, u: User, depth: nat, levelColour: nat -> Colour,
                departmentColour: string -> Colour): (r: Colour)
    ensures mode == ByLicense ==> (r == LicensedGreen <==> u.hasLicense)
    ensures mode == ByLicense ==> r == LicensedGreen || r == NoLicenseGrey
    ensures mode == ByLevel ==> exists level :: 0 <= level <= 5 && r == levelColour(level)
    ensures mode == ByLevel && depth < 5 ==> r == levelColour(depth)
    ensures mode == ByLevel && depth >= 5 ==> r == levelColour(5)
    ensures mode == ByDepartment && u.department.Some? && u.department.value != [] ==>
      r == departmentColour(u.department.value)
    ensures mode == ByDepartment && (u.department.None? || u.department.value == []) ==>
      r == departmentColour("Unknown")
  {
    match mode
    case ByLicense => if u.hasLicense then LicensedGreen else NoLicenseGrey
    case ByLevel => levelColour(if depth < 5 then depth else 5)
    case ByDepartment => departmentColour(OrElse(u.department, "Unknown"))
  }

  /** In license mode a licensed node is filled with its stroke colour, and an unlicensed
      one is filled grey inside its red ring. */
  lemma LicenseFillAgreesWithStroke(u: User, depth: nat, levelColour: nat -> Colour,
                                    departmentColour: string -> Colour)
    ensures (Fill(ByLicense, u, depth, levelColour, departmentColour) == Stroke(u)) <==> u.hasLicense
  {
  }

  /** Level colours stop changing at depth 5: every node at depth 5 or deeper gets the
      level-5 colour, and shallower nodes each get their own level. */
  lemma LevelsClampAtFive(u: User, v: User, d: nat, e: nat, levelColour: nat -> Colour,
                          departmentColour: string -> Colour)
    ensures d >= 5 ==> Fill(ByLevel, u, d, levelColour, departmentColour) == levelColour(5)
    ensures d >= 5 && e >= 5 ==>
      Fill(ByLevel, u, d, levelColour, departmentColour) == Fill(ByLevel, v, e, levelColour, departmentColour)
    ensures d < 5 ==> Fill(ByLevel, u, d, levelColour, departmentColour) == levelColour(d)
  {
  }

  /** In department mode a person with no department, or an empty one, is coloured as
      the department named "Unknown". */
  lemma MissingDepartmentLooksUnknown(u: User, v: User, depth: nat, levelColour: nat -> Colour,
                                      departmentColour: string -> Colour)
    requires u.department.None? || u.department == Some("")
    requires v.department == Some("Unknown")
    ensures Fill(ByDepartment, u, depth, levelColour, departmentColour)
      == Fill(ByDepartment, v, depth, levelColour, departmentColour)
  {
  }

  /** Whether the label carries stars: the option is on and the engagement is defined and
      positive. */
  predicate ShowsStars(u: User, showStars: bool)
  {
    showStars && u.aiEngagement.Some? && u.aiEngagement.value > 0.0
  }

  /** `getNodeLabel`: the name, or "Unknown" for a missing or empty one, followed by a
      space and the stars of the rating when they are shown. */
  function Label(u: User, showStars: bool, rating: real -> Rating): (r: string)
    ensures var name := OrElse(u.name, "Unknown");
      && name != []
      && |name| <= |r| && r[..|name|] == name
      && (r == name <==> !ShowsStars(u, showStars))
      && (ShowsStars(u, showStars) ==> r[|name|..] == " " + rating(u.aiEngagement.value).stars)
  {
    var name := OrElse(u.name, "Unknown");
    if ShowsStars(u, showStars) then name + " " + rating(u.aiEngagement.value).stars else name
  }

  /** A point of the layout; `undefined` coordinates are None. */
  datatype Point = Point(x: Option<real>, y: Option<real>)

  /** The path `diagonal` draws: empty, or a cubic curve from `start` to `end` through
      two control points, each as (horizontal, vertical) = (y, x). */
  datatype Path = Empty | Curve(start: (real, real), c1: (real, real), c2: (real, real), end: (real, real))

  predicate Placed(p: Option<Point>)
  {
    p.Some? && p.value.x.Some? && p.value.y.Some?
  }

  /** `diagonal(s, d)`: the empty path when either end or any of its coordinates is
      missing; otherwise the curve that leaves `s` horizontally and arrives at `d`
      horizontally, both control points half way across. */
  function Diagonal(s: Option<Point>, d: Option<Point>): (r: Path)
    ensures r.Empty? <==> !Placed(s) || !Placed(d)
    ensures r.Curve? ==>
      var (sx, sy, dx, dy) := (s.value.x.value, s.value.y.value, d.value.x.value, d.value.y.value);
      && r.start == (sy, sx) && r.end == (dy, dx)
      && r.c1 == ((sy + dy) / 2.0, sx) && r.c2 == ((sy + dy) / 2.0, dx)
  {
    if !Placed(s) || !Placed(d) then Empty
    else
      var (sx, sy, dx, dy) := (s.value.x.value, s.value.y.value, d.value.x.value, d.value.y.value);
      Curve((sy, sx), ((sy + dy) / 2.0, sx), ((sy + dy) / 2.0, dx), (dy, dx))
  }

  /** The entering and exiting links are drawn as `diagonal(o, o)` for one point `o`
      whose coordinates are always defined (the enter anchor reads a missing coordinate
      as 0): such a path is never empty and collapses to the single point `o`. */
  lemma AnchorPathIsPoint(ox: real, oy: real)
    ensures var o := Some(Point(Some(ox), Some(oy)));
      Diagonal(o, o) == Curve((oy, ox), (oy, ox), (oy, ox), (oy, ox))
  {
  }
}
