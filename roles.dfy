/** The fixed project-role enumeration shared by the table and both role dialogs. */
module Roles {

  datatype Role = VicePresident | SeniorProjectManager | ProjectManager | AssistantProjectManager

  /** The text under which a role is shown and stored by the dialogs. */
  function Label(r: Role): string
  {
    match r
    case VicePresident => "Vice President"
    case SeniorProjectManager => "Senior Project Manager"
    case ProjectManager => "Project Manager"
    case AssistantProjectManager => "Assistant Project Manager"
  }

  /** The table's role priority: a lower number is a higher rank. */
  function Rank(r: Role): (n: int)
    ensures 1 <= n <= 4
  {
    match r
    case VicePresident => 1
    case SeniorProjectManager => 2
    case ProjectManager => 3
    case AssistantProjectManager => 4
  }

  /** The options of every role select, in rank order. */
  function Options(): (opts: seq<string>)
    ensures |opts| == 4
    ensures forall r: Role :: opts[Rank(r) - 1] == Label(r)
  {
    [Label(VicePresident), Label(SeniorProjectManager), Label(ProjectManager), Label(AssistantProjectManager)]
  }

  /** Rank is a strict order: Vice President 1 < Senior Project Manager 2 < Project
      Manager 3 < Assistant Project Manager 4, and two roles share a rank only when
      they are the same role (so do their labels). */
  lemma RankOrder(r: Role, s: Role)
    ensures Rank(VicePresident) < Rank(SeniorProjectManager) < Rank(ProjectManager) < Rank(AssistantProjectManager)
    ensures Rank(r) == Rank(s) <==> r == s
    ensures Label(r) == Label(s) <==> r == s
  {
  }
}
