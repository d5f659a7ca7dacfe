// The Task entity stored by the backend, and the partial update that
// PUT /tasks/:id applies to it.
module Tasks {
  import opened Wrappers

  /** A stored task. `createdAt` and `updatedAt` are ticks of the store's clock. */
  datatype Task = Task(
    id: nat,
    title: string,
    description: string,
    isCompleted: bool,
    createdAt: nat,
    updatedAt: nat)

  /**
   * The fields of a PUT body. A field that is absent from the body
   * (undefined in JavaScript) is None and leaves the stored value alone.
   */
  datatype Patch = Patch(
    title: Option<string>,
    description: Option<string>,
    isCompleted: Option<bool>)

  function Override<T>(supplied: Option<T>, stored: T): (r: T)
    ensures supplied.Some? ==> r == supplied.value
    ensures supplied.None? ==> r == stored
  {
    match supplied
    case Some(v) => v
    case None => stored
  }

  /** The task after an update at clock tick `now`. */
  function ApplyPatch(t: Task, p: Patch, now: nat): (r: Task)
    ensures r.id == t.id && r.createdAt == t.createdAt && r.updatedAt == now
    ensures r.title == Override(p.title, t.title)
    ensures r.description == Override(p.description, t.description)
    ensures r.isCompleted == Override(p.isCompleted, t.isCompleted)
  {
    t.(title := Override(p.title, t.title),
       description := Override(p.description, t.description),
       isCompleted := Override(p.isCompleted, t.isCompleted),
       updatedAt := now)
  }

  /** The user-visible content of a task: everything but its timestamps. */
  function Content(t: Task): (c: (nat, string, string, bool))
    ensures c.0 == t.id && c.3 == t.isCompleted
  {
    (t.id, t.title, t.description, t.isCompleted)
  }

  /** An empty PUT body changes nothing but the update time. */
  lemma EmptyPatchKeepsContent(t: Task, now: nat)
    ensures Content(ApplyPatch(t, Patch(None, None, None), now)) == Content(t)
  {
  }

  /** Applying the same PUT body twice has the effect of applying it once. */
  lemma PatchIdempotent(t: Task, p: Patch, now1: nat, now2: nat)
    ensures ApplyPatch(ApplyPatch(t, p, now1), p, now2) == ApplyPatch(t, p, now2)
  {
  }

  /** A later patch wins over an earlier one on every field it supplies. */
  lemma PatchLastWriterWins(t: Task, p: Patch, q: Patch, now1: nat, now2: nat)
    requires q.title.Some? && q.description.Some? && q.isCompleted.Some?
    ensures Content(ApplyPatch(ApplyPatch(t, p, now1), q, now2))
         == (t.id, q.title.value, q.description.value, q.isCompleted.value)
  {
  }
}
