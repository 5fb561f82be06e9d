/** What the three calendar views share: searching a task's text fields,
    testing its status, and the per-date buckets they group tasks into. */
module TaskView {
  import opened Strings
  import opened Seqs
  import opened DateFormat
  import opened TaskModel

  /** `(t.x || "").toLowerCase().includes(q)` for one of the four searched
      fields: title, description, type and status. */
  predicate MatchesQuery(t: Task, q: string)
  {
    Contains(Lower(t.title), q) || Contains(Lower(t.description), q)
    || Contains(Lower(t.kind), q) || Contains(Lower(t.status), q)
  }

  /** The weekly and daily `matchesSearch`: the query is trimmed and
      lowercased first, and an empty query matches every task. */
  predicate TrimmedMatches(search: string, t: Task)
  {
    var q := Lower(Trim(search));
    q == "" || MatchesQuery(t, q)
  }

  /** The views' `matchesSearch` as a filter predicate. */
  function TrimmedMatch(search: string): Task -> bool
  {
    (t: Task) => TrimmedMatches(search, t)
  }

  /** `search.trim().length > 0`. */
  predicate Searching(search: string)
  {
    |Trim(search)| > 0
  }

  /** A search that is blank after trimming matches every task. */
  lemma BlankSearchMatchesAll(search: string, t: Task)
    requires IsBlank(search)
    ensures TrimmedMatches(search, t) && !Searching(search)
  {
    TrimEmptyIffBlank(search);
  }

  /** A non-blank search matches exactly the tasks one of whose four fields,
      lowercased, contains the lowercased trimmed query. */
  lemma TrimmedMatchesNonBlank(search: string, t: Task)
    requires !IsBlank(search)
    ensures TrimmedMatches(search, t) <==> MatchesQuery(t, Lower(Trim(search)))
  {
    TrimEmptyIffBlank(search);
  }

  /** `t => t.status === s`. */
  function HasStatus(s: string): Task -> bool
  {
    (t: Task) => t.status == s
  }

  /** `t => normalizeDateKey(t.date) === k`. */
  function HasKey(k: string): Task -> bool
  {
    (t: Task) => NormalizeDateKey(t.date) == k
  }

  /** The tasks whose date key is `k`, in their original order: the bucket a
      grouping loop builds for `k`. */
  function Bucket(tasks: seq<Task>, k: string): (r: seq<Task>)
    ensures forall t :: multiset(r)[t] == if NormalizeDateKey(t.date) == k then multiset(tasks)[t] else 0
    ensures IsSubsequence(r, tasks)
  {
    FilterSpec(tasks, HasKey(k));
    FilterIsSubsequence(tasks, HasKey(k));
    Filter(tasks, HasKey(k))
  }

  /** `grouped[key] || []`. */
  function Lookup(grouped: map<string, seq<Task>>, k: string): seq<Task>
  {
    if k in grouped then grouped[k] else []
  }

  /** Extending the input extends exactly one bucket, the one of the new
      task's key. */
  lemma BucketAppend(tasks: seq<Task>, t: Task, k: string)
    ensures Bucket(tasks + [t], k)
        == Bucket(tasks, k) + (if NormalizeDateKey(t.date) == k then [t] else [])
  {
    FilterAppend(tasks, t, HasKey(k));
  }

  /** Two different keys never share a task. */
  lemma BucketsDisjoint(tasks: seq<Task>, k1: string, k2: string, t: Task)
    requires k1 != k2
    ensures !(t in Bucket(tasks, k1) && t in Bucket(tasks, k2))
  {
  }
}
