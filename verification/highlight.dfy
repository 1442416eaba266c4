/** The highlight state of the chart: the module variables `highlightedDepartment`,
    `highlightedNodes` and `licenseHighlightActive`, and the four operations that set them
    (department highlight, license toggle, name/title search, clear). */
module Highlight {
  import opened Optional
  import opened Records
  import opened Search

  /** The three highlight variables. `nodes` is `null` (None) or a set of emails. */
  datatype State = State(department: Option<string>, nodes: Option<set<Email>>, licenseActive: bool)

  /** The state at load time, and the state every clear returns to. */
  const Cleared := State(None, None, false)

  /** `s.size > 0 ? s : null`. */
  function NonEmpty(s: set<Email>): (r: Option<set<Email>>)
    ensures r.None? <==> s == {}
    ensures r.Some? ==> r.value == s
  {
    if |s| > 0 then Some(s) else None
  }

  /** The emails of the records in a department. */
  function DepartmentEmails(org: seq<User>, department: string): (r: set<Email>)
    ensures forall u :: u in org && u.department == Some(department) ==> u.email in r
    ensures forall e :: e in r <==> exists u :: u in org && u.department == Some(department) && u.email == e
  {
    set u | u in org && u.department == Some(department) :: u.email
  }

  /** The emails of the records that hold a license. */
  function LicensedEmails(org: seq<User>): (r: set<Email>)
    ensures forall u :: u in org && u.hasLicense ==> u.email in r
    ensures forall e :: e in r <==> exists u :: u in org && u.hasLicense && u.email == e
  {
    set u | u in org && u.hasLicense :: u.email
  }

  /** What every reachable state satisfies: an empty highlight set is stored as `null`,
      and the department highlight and the license highlight never hold together. */
  predicate Consistent(st: State)
  {
    && st.nodes != Some({})
    && !(st.department.Some? && st.licenseActive)
  }

  /** `highlightDepartment(department)`: the same department again clears everything;
      otherwise that department's people become the highlight, and the license highlight
      and the search are dropped. */
  function AfterDepartment(st: State, org: seq<User>, department: string): (r: State)
    ensures st.department == Some(department) ==> r == Cleared
    ensures st.department != Some(department) ==>
      && r.department == Some(department)
      && !r.licenseActive
      && (r.nodes.None? <==> forall u :: u in org ==> u.department != Some(department))
      && forall e :: r.nodes.Some? ==>
           (e in r.nodes.value <==> exists u :: u in org && u.department == Some(department) && u.email == e)
  {
    if st.department == Some(department) then Cleared
    else State(Some(department), NonEmpty(DepartmentEmails(org, department)), false)
  }

  /** `toggleLicenseHighlight()`: when active it clears everything; otherwise the licensed
      people become the highlight and the toggle is on, even when nobody holds a license. */
  function AfterLicenseToggle(st: State, org: seq<User>): (r: State)
    ensures st.licenseActive ==> r == Cleared
    ensures !st.licenseActive ==>
      && r.department.None?
      && r.licenseActive
      && (r.nodes.None? <==> forall u :: u in org ==> !u.hasLicense)
      && forall e :: r.nodes.Some? ==>
           (e in r.nodes.value <==> exists u :: u in org && u.hasLicense && u.email == e)
  {
    if st.licenseActive then Cleared
    else State(None, NonEmpty(LicensedEmails(org)), true)
  }

  /** `searchByNameTitle()` on the search box's text, `None` when the box is missing:
      nothing happens without a box, blank input clears everything, and otherwise the
      people found become the highlight, with the department and license highlights
      dropped. */
  function AfterSearch(st: State, org: seq<User>, input: Option<string>): (r: State)
    ensures input.None? ==> r == st
    ensures input.Some? && AllSpace(input.value) ==> r == Cleared
    ensures input.Some? && !AllSpace(input.value) ==>
      && r.department.None?
      && !r.licenseActive
      && (r.nodes.None? <==> forall u :: u in org ==> !Matches(u, Terms(input.value)))
      && forall e :: r.nodes.Some? ==>
           (e in r.nodes.value <==> exists u :: u in org && Matches(u, Terms(input.value)) && u.email == e)
  {
    if input.None? then st
    else
      var raw := Lower(Trim(input.value));
      TrimIsSlice(input.value);
      if raw == [] then Cleared
      else State(None, NonEmpty(SearchEmails(org, Terms(input.value))), false)
  }

  /** Every operation leads from a consistent state to a consistent state, and the load
      state is consistent. */
  lemma OperationsKeepConsistent(st: State, org: seq<User>, department: string, input: Option<string>)
    requires Consistent(st)
    ensures Consistent(Cleared)
    ensures Consistent(AfterDepartment(st, org, department))
    ensures Consistent(AfterLicenseToggle(st, org))
    ensures Consistent(AfterSearch(st, org, input))
  {
  }

  /** Choosing a department twice, or toggling the license highlight on and off, leaves
      no highlight at all. */
  lemma ToggleOff(st: State, org: seq<User>, department: string)
    ensures st.department != Some(department) ==>
      AfterDepartment(AfterDepartment(st, org, department), org, department) == Cleared
    ensures !st.licenseActive ==> AfterLicenseToggle(AfterLicenseToggle(st, org), org) == Cleared
  {
  }

  /** Whatever was highlighted before, the department, license and search highlights
      replace it entirely: the new state depends only on the records and the input. */
  lemma ResultsForgetThePast(st1: State, st2: State, org: seq<User>, department: string, input: string)
    requires st1.department != Some(department) && st2.department != Some(department)
    requires !st1.licenseActive && !st2.licenseActive
    ensures AfterDepartment(st1, org, department) == AfterDepartment(st2, org, department)
    ensures AfterLicenseToggle(st1, org) == AfterLicenseToggle(st2, org)
    ensures AfterSearch(st1, org, Some(input)) == AfterSearch(st2, org, Some(input))
  {
  }

  /** The module variables as the page holds them. */
  class Highlighter {
    var highlightedDepartment: Option<string>
    var highlightedNodes: Option<set<Email>>
    var licenseHighlightActive: bool

    function Current(): State
      reads this
    {
      State(highlightedDepartment, highlightedNodes, licenseHighlightActive)
    }

    /** The initial values `null`, `null`, `false`. */
    constructor ()
      ensures Current() == Cleared && Consistent(Current())
    {
      highlightedDepartment := None;
      highlightedNodes := None;
      licenseHighlightActive := false;
    }

    /** `clearHighlight()`. */
    method Clear()
      modifies this
      ensures Current() == Cleared
    {
      highlightedDepartment := None;
      highlightedNodes := None;
      licenseHighlightActive := false;
    }

    /** `highlightDepartment(department)`. */
    method HighlightDepartment(org: seq<User>, department: string)
      requires Consistent(Current())
      modifies this
      ensures Current() == AfterDepartment(old(Current()), org, department)
      ensures Consistent(Current())
    {
      if highlightedDepartment == Some(department) {
        Clear();
      } else {
        highlightedDepartment := Some(department);
        highlightedNodes := NonEmpty(DepartmentEmails(org, department));
        licenseHighlightActive := false;
      }
    }

    /** `toggleLicenseHighlight()`. */
    method ToggleLicenseHighlight(org: seq<User>)
      requires Consistent(Current())
      modifies this
      ensures Current() == AfterLicenseToggle(old(Current()), org)
      ensures Consistent(Current())
    {
      if licenseHighlightActive {
        Clear();
      } else {
        highlightedDepartment := None;
        highlightedNodes := NonEmpty(LicensedEmails(org));
        licenseHighlightActive := true;
      }
    }

    /** `searchByNameTitle()`, given the search box's text or `None` without a box. */
    method SearchByNameTitle(org: seq<User>, input: Option<string>)
      requires Consistent(Current())
      modifies this
      ensures Current() == AfterSearch(old(Current()), org, input)
      ensures Consistent(Current())
    {
      if input.None? {
        return;
      }
      var raw := Lower(Trim(input.value));
      if raw == [] {
        Clear();
        return;
      }
      var terms := Terms(input.value);
      highlightedDepartment := None;
      highlightedNodes := NonEmpty(SearchEmails(org, terms));
      licenseHighlightActive := false;
    }
  }
}
