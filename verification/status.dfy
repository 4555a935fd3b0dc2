/** The status values the two task editors offer. */
module Status {

  /** Status choices of the new-task dialog, in the order it lists them. */
  const DialogStatusOptions: seq<string> :=
    ["Logged", "Pending", "In Progress", "On hold", "In Review", "Completed", "Canceled"]

  /** Status choices of the task-detail editor's dropdown, in the order it lists them. */
  const DetailStatusOptions: seq<string> :=
    ["Pending", "Logged", "In Progress", "On hold", "In Review", "Completed", "Canceled"]

  /** Status a new task starts with. */
  const DefaultStatus: string := "Pending"

  /** No value is listed twice. */
  predicate Distinct(xs: seq<string>) {
    forall i, j :: 0 <= i < j < |xs| ==> xs[i] != xs[j]
  }

  /**
   * Both editors offer the same seven distinct statuses, only in a different order, and the
   * default status is one of them.
   */
  lemma StatusOptionsAgree()
    ensures |DialogStatusOptions| == |DetailStatusOptions| == 7
    ensures Distinct(DialogStatusOptions) && Distinct(DetailStatusOptions)
    ensures (set s | s in DialogStatusOptions) == (set s | s in DetailStatusOptions)
    ensures DefaultStatus in DialogStatusOptions && DefaultStatus in DetailStatusOptions
  {
  }
}
