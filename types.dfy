/** The records the time tracker stores: projects and the interval logs
    closed against them. Timestamps are integer milliseconds. */
module Types {

  datatype Option<T> = None | Some(value: T) {
    /** The value, or `default` when absent (the `??` operator). */
    function GetOr(default: T): T {
      match this
      case Some(v) => v
      case None => default
    }
  }

  /** A project slug. `None` stands for the `undefined` slug that the text
      importer produces for a line without a " [" separator; every other
      slug is a string. Slugs are only ever compared for equality, which is
      what `===` does on both kinds. */
  type Slug = Option<string>

  /** An ordered pair `[start, end]` of timestamps. */
  datatype Interval = Interval(start: int, end: int)

  /** A project as the current store keeps it. `startedAt` is present
      exactly while its timer runs. */
  datatype Project = Project(
    slug: Slug,
    name: string,
    startedAt: Option<int>,
    lastActivityName: Option<string>)

  /** A closed time interval attributed to a project. */
  datatype Log = Log(projectSlug: Slug, interval: Interval, activityName: string)

  /** `isStartedProject`: the project has a `startedAt` value at all. */
  predicate IsStarted(p: Project) {
    p.startedAt.Some?
  }

  /** JavaScript truthiness of an optional timestamp: present and not 0.
      The legacy code paths and the constraint window test `startedAt`
      this way rather than against `undefined`. */
  predicate Truthy(t: Option<int>) {
    t.Some? && t.value != 0
  }

  /** JavaScript truthiness of an optional string: present and not empty. */
  predicate TruthyText(s: Option<string>) {
    s.Some? && s.value != ""
  }

  /** `a || b` on optional strings. */
  function OrText(a: Option<string>, b: string): string {
    if TruthyText(a) then a.value else b
  }

  /** The duration a log covers. */
  function Duration(l: Log): int {
    l.interval.end - l.interval.start
  }
}
