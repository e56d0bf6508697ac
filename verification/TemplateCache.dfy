/**
 `ApplicationAdapter.getTemplate`: the cache of compiled stylesheets. The steps of several lookups, edits of the
 stylesheets and the passing of time may interleave in any order.
 */
module TemplateCache {
  import opened Options
  import opened Seqs

  /** A stylesheet file with its contents and the time it was last modified. */
  datatype File = File(content: string, modified: int)

  /** A cached stylesheet: what it was compiled from and when it was wrapped. */
  datatype Template = Template(content: string, stamp: int)

  /** The file was not modified since the template was wrapped. */
  predicate IsCurrent(t: Template, modified: int)
  {
    !(modified > t.stamp)
  }

  /** The template is not too old. */
  predicate IsYoung(t: Template, now: int, maxAge: int)
  {
    !(now - t.stamp > maxAge)
  }

  /** What a lookup that nobody interferes with returns and leaves in the cache under its path. */
  function Lookup(cached: Option<Template>, file: File, now: int, later: int, maxAge: int): Template
  {
    if cached.Some? && IsCurrent(cached.value, file.modified) && IsYoung(cached.value, now, maxAge) then cached.value
    else Template(file.content, later)
  }

  function Cached(cache: map<string, Template>, path: string): Option<Template>
  {
    if path in cache then Some(cache[path]) else None
  }

  class Adapter {
    var cache: map<string, Template>

    constructor ()
      ensures cache == map[]
    {
      cache := map[];
    }

    /**
     `getTemplate`, with the clock as it is when the age is checked and when a new template is wrapped. What is returned is
     in the cache from then on, next to what was cached for other paths; it was compiled from what the file holds, or
     it was there before, is young enough, and the file was not modified since it was wrapped.
     */
    method GetTemplate(path: string, file: File, now: int, later: int, maxAge: int) returns (t: Template)
      modifies this
      ensures t == Lookup(Cached(old(cache), path), file, now, later, maxAge) && cache == old(cache)[path := t]
      ensures || (t.content == file.content && t.stamp == later)
              || (Cached(old(cache), path) == Some(t) && now - t.stamp <= maxAge && file.modified <= t.stamp)
      ensures path in old(cache) && file.modified <= old(cache)[path].stamp && now - old(cache)[path].stamp <= maxAge ==>
                t == old(cache)[path]
    {
      if path !in cache || file.modified > cache[path].stamp || now - cache[path].stamp > maxAge {
        t := Template(file.content, later);
        cache := cache[path := t];
      } else {
        t := cache[path];
      }
    }
  }

  // ---------- all interleavings ----------

  /**
   Where a thread stands in a lookup: it has taken a template from the cache, found it current, decided to compile, or
   compiled what it read. `readAt` remembers when the file behind the template was read, `checkedAt` when the
   file's time was looked at.
   */
  datatype Job =
    | Fetched(path: string, template: Template, readAt: int)
    | Current(path: string, template: Template, readAt: int, checkedAt: int)
    | Missed(path: string)
    | Compiled(path: string, content: string, readAt: int)

  /** `readAt` remembers when the file behind a cached template was read. */
  datatype State = State(
    clock: int,
    files: map<string, File>,
    cache: map<string, Template>,
    readAt: map<string, int>,
    jobs: map<nat, Job>)

  /** Time passes, a file is edited, or a thread makes the next step of a lookup. */
  datatype Step =
    | Tick(millis: nat)
    | Edit(path: string, content: string)
    | Fetch(thread: nat, path: string)
    | CheckFile(thread: nat)
    | CheckAge(thread: nat, maxAge: int)
    | Compile(thread: nat)
    | Store(thread: nat)

  function Working(s: State, thread: nat, job: Job): State
  {
    s.(jobs := s.jobs[thread := job])
  }

  /** What a step makes of a state; `None` where it is not possible. */
  function Next(s: State, step: Step): Option<State>
    requires s.readAt.Keys == s.cache.Keys
  {
    match step
    case Tick(millis) => Some(s.(clock := s.clock + millis))
    case Edit(path, content) => Some(s.(files := s.files[path := File(content, s.clock)]))
    case Fetch(thread, path) =>
      if thread in s.jobs || path !in s.files then None
      else if path !in s.cache then Some(Working(s, thread, Missed(path)))
      else Some(Working(s, thread, Fetched(path, s.cache[path], s.readAt[path])))
    case CheckFile(thread) =>
      if thread !in s.jobs || !s.jobs[thread].Fetched? || s.jobs[thread].path !in s.files then None
      else
        var job := s.jobs[thread];
        if !IsCurrent(job.template, s.files[job.path].modified) then Some(Working(s, thread, Missed(job.path)))
        else Some(Working(s, thread, Current(job.path, job.template, job.readAt, s.clock)))
    case CheckAge(thread, maxAge) =>
      if thread !in s.jobs || !s.jobs[thread].Current? then None
      else if !IsYoung(s.jobs[thread].template, s.clock, maxAge) then
        Some(Working(s, thread, Missed(s.jobs[thread].path)))
      else Some(s.(jobs := s.jobs - {thread}))
    case Compile(thread) =>
      if thread !in s.jobs || !s.jobs[thread].Missed? || s.jobs[thread].path !in s.files then None
      else
        var path := s.jobs[thread].path;
        Some(Working(s, thread, Compiled(path, s.files[path].content, s.clock)))
    case Store(thread) =>
      if thread !in s.jobs || !s.jobs[thread].Compiled? then None
      else
        var job := s.jobs[thread];
        Some(s.(cache := s.cache[job.path := Template(job.content, s.clock)],
                readAt := s.readAt[job.path := job.readAt],
                jobs := s.jobs - {thread}))
  }

  function Run(s: State, steps: seq<Step>): (r: Option<State>)
    requires s.readAt.Keys == s.cache.Keys
    ensures r.Some? ==> r.value.readAt.Keys == r.value.cache.Keys
  {
    if steps == [] then Some(s)
    else
      match Run(s, steps[..|steps| - 1])
      case None => None
      case Some(t) => Next(t, steps[|steps| - 1])
  }

  /** What a file held when it was read is what it holds now, unless it was edited at that time or later. */
  predicate UpToDate(s: State, path: string, content: string, readAt: int)
  {
    && path in s.files && readAt <= s.clock
    && (s.files[path].content != content ==> readAt <= s.files[path].modified)
  }

  predicate Stamped(s: State, path: string, t: Template, readAt: int)
  {
    UpToDate(s, path, t.content, readAt) && readAt <= t.stamp <= s.clock
  }

  /** What a thread holds is as up to date as when it got it. */
  predicate JobIsSound(s: State, job: Job)
  {
    match job
    case Fetched(path, t, readAt) => Stamped(s, path, t, readAt)
    case Current(path, t, readAt, checkedAt) =>
      && Stamped(s, path, t, readAt) && checkedAt <= s.clock
      && (s.files[path].modified <= t.stamp || checkedAt <= s.files[path].modified)
    case Missed(path) => path in s.files
    case Compiled(path, content, readAt) => UpToDate(s, path, content, readAt)
  }

  predicate Invariant(s: State)
  {
    && s.readAt.Keys == s.cache.Keys
    && (forall path :: path in s.files ==> s.files[path].modified <= s.clock)
    && (forall thread :: thread in s.jobs ==> JobIsSound(s, s.jobs[thread]))
    && (forall path :: path in s.cache ==> Stamped(s, path, s.cache[path], s.readAt[path]))
  }

  /** Time and edits leave what is held sound. */
  lemma SoundLater(s: State, job: Job, step: Step)
    requires Invariant(s) && JobIsSound(s, job) && (step.Tick? || step.Edit?)
    ensures JobIsSound(Next(s, step).value, job)
  {
  }

  lemma TimeKeepsInvariant(s: State, step: Step)
    requires Invariant(s) && (step.Tick? || step.Edit?)
    ensures Invariant(Next(s, step).value)
  {
    var t := Next(s, step).value;
    forall thread | thread in s.jobs
      ensures JobIsSound(t, s.jobs[thread])
    {
      SoundLater(s, s.jobs[thread], step);
    }
    forall path | path in s.cache
      ensures Stamped(t, path, s.cache[path], s.readAt[path])
    {
      SoundLater(s, Fetched(path, s.cache[path], s.readAt[path]), step);
    }
  }

  /** A job is sound whatever the other threads do and whatever is cached. */
  lemma SoundElsewhere(s: State, t: State, job: Job)
    requires JobIsSound(s, job) && s.files == t.files && s.clock == t.clock
    ensures JobIsSound(t, job)
  {
  }

  lemma WorkingKeepsInvariant(s: State, thread: nat, job: Job)
    requires Invariant(s) && JobIsSound(s, job)
    ensures Invariant(Working(s, thread, job))
  {
    var t := Working(s, thread, job);
    forall other | other in t.jobs
      ensures JobIsSound(t, t.jobs[other])
    {
      SoundElsewhere(s, t, t.jobs[other]);
    }
  }

  lemma StoreKeepsInvariant(s: State, thread: nat)
    requires Invariant(s) && Next(s, Store(thread)).Some?
    ensures Invariant(Next(s, Store(thread)).value)
  {
    var t := Next(s, Store(thread)).value;
    assert JobIsSound(s, s.jobs[thread]);
    forall other | other in t.jobs
      ensures JobIsSound(t, t.jobs[other])
    {
      SoundElsewhere(s, t, s.jobs[other]);
    }
  }

  lemma DoneKeepsInvariant(s: State, thread: nat)
    requires Invariant(s)
    ensures Invariant(s.(jobs := s.jobs - {thread}))
  {
    forall other | other in s.jobs
      ensures JobIsSound(s.(jobs := s.jobs - {thread}), s.jobs[other])
    {
      SoundElsewhere(s, s.(jobs := s.jobs - {thread}), s.jobs[other]);
    }
  }

  /** A thread that looks at the cache, the file or the clock ends up with a sound job, or with none. */
  lemma ThreadStep(s: State, step: Step, thread: nat)
    requires Invariant(s) && Next(s, step).Some?
    requires step.Fetch? || step.CheckFile? || step.CheckAge? || step.Compile?
    requires thread == step.thread
    ensures var t := Next(s, step).value;
            || t == s.(jobs := s.jobs - {thread})
            || (thread in t.jobs && JobIsSound(s, t.jobs[thread]) && t == Working(s, thread, t.jobs[thread]))
  {
    if !step.Fetch? {
      assert JobIsSound(s, s.jobs[thread]);
    }
  }

  /** Every step of every thread keeps the cache in touch with the files. */
  lemma StepKeepsInvariant(s: State, step: Step)
    requires Invariant(s) && Next(s, step).Some?
    ensures Invariant(Next(s, step).value)
  {
    if step.Tick? || step.Edit? {
      TimeKeepsInvariant(s, step);
    } else if step.Store? {
      StoreKeepsInvariant(s, step.thread);
    } else {
      var t := Next(s, step).value;
      ThreadStep(s, step, step.thread);
      if t == s.(jobs := s.jobs - {step.thread}) {
        DoneKeepsInvariant(s, step.thread);
      } else {
        WorkingKeepsInvariant(s, step.thread, t.jobs[step.thread]);
      }
    }
  }

  lemma {:induction false} RunKeepsInvariant(s: State, steps: seq<Step>)
    requires Invariant(s) && Run(s, steps).Some?
    ensures Invariant(Run(s, steps).value)
  {
    if steps != [] {
      RunKeepsInvariant(s, steps[..|steps| - 1]);
      StepKeepsInvariant(Run(s, steps[..|steps| - 1]).value, steps[|steps| - 1]);
    }
  }

  /** Nothing cached and nobody at work: where every run starts. */
  predicate Started(s: State)
  {
    s.cache == map[] && s.readAt == map[] && s.jobs == map[]
    && forall path :: path in s.files ==> s.files[path].modified <= s.clock
  }

  /** What a thread returns by a step: a template from the cache, or the one it has compiled and now wraps and stores. */
  function Returned(s: State, step: Step): Option<Template>
  {
    match step
    case CheckAge(thread, maxAge) =>
      if thread in s.jobs && s.jobs[thread].Current? && IsYoung(s.jobs[thread].template, s.clock, maxAge) then
        Some(s.jobs[thread].template)
      else None
    case Store(thread) =>
      if thread in s.jobs && s.jobs[thread].Compiled? then Some(Template(s.jobs[thread].content, s.clock)) else None
    case _ => None
  }

  /** With a returned template a lookup ends, and nothing but what was just compiled changes in the cache. */
  lemma ReturnEnds(s: State, step: Step)
    requires s.readAt.Keys == s.cache.Keys && Returned(s, step).Some?
    ensures Next(s, step).Some? && step.thread in s.jobs && Next(s, step).value.jobs == s.jobs - {step.thread}
    ensures var path, cache := s.jobs[step.thread].path, Next(s, step).value.cache;
            cache == if step.Store? then s.cache[path := Returned(s, step).value] else s.cache
  {
  }

  /**
   After any run, a template that a thread returns is one it has just wrapped, or was wrapped no longer than `maxAge` ago.
   What it was compiled from is what the file holds now, unless the file was last edited between the time it was read
   and the time the template was wrapped, or, if it comes from the cache, since the thread looked at the file's time.
   */
  lemma ReturnedTemplateIsFresh(s: State, steps: seq<Step>, step: Step)
    requires Started(s) && Run(s, steps).Some? && Returned(Run(s, steps).value, step).Some?
    ensures var now, t := Run(s, steps).value, Returned(Run(s, steps).value, step).value;
            && step.thread in now.jobs && now.jobs[step.thread].path in now.files
            && (if step.Store? then t.stamp == now.clock else now.clock - t.stamp <= step.maxAge)
            && var job := now.jobs[step.thread];
            && (t.content != now.files[job.path].content ==>
                  || job.readAt <= now.files[job.path].modified <= t.stamp
                  || (job.Current? && job.checkedAt <= now.files[job.path].modified))
  {
    RunKeepsInvariant(s, steps);
    var now := Run(s, steps).value;
    assert JobIsSound(now, now.jobs[step.thread]);
  }

  // ---------- particular runs ----------

  /** One step after the other, the first one first. */
  function Then(r: Option<State>, step: Step): Option<State>
    requires r.Some? ==> r.value.readAt.Keys == r.value.cache.Keys
  {
    if r.Some? then Next(r.value, step) else None
  }

  lemma RunMore(s: State, steps: seq<Step>, step: Step)
    requires s.readAt.Keys == s.cache.Keys
    ensures Run(s, steps + [step]) == Then(Run(s, steps), step)
  {
    Snoc(steps, step);
  }

  lemma RunOne(s: State, a: Step)
    requires s.readAt.Keys == s.cache.Keys
    ensures Run(s, [a]) == Next(s, a)
  {
    assert [a][..0] == [];
  }

  lemma RunTwo(s: State, a: Step, b: Step)
    requires s.readAt.Keys == s.cache.Keys
    ensures Run(s, [a, b]) == Then(Run(s, [a]), b)
  {
    RunMore(s, [a], b);
    assert [a] + [b] == [a, b];
  }

  lemma RunThree(s: State, a: Step, b: Step, c: Step)
    requires s.readAt.Keys == s.cache.Keys
    ensures Run(s, [a, b, c]) == Then(Run(s, [a, b]), c)
  {
    RunMore(s, [a, b], c);
    assert [a, b] + [c] == [a, b, c];
  }

  /** A thread that compiles without interference stores what `getTemplate` does. */
  lemma CompileAlone(s: State, thread: nat, wait: nat)
    requires s.readAt.Keys == s.cache.Keys
    requires thread in s.jobs && s.jobs[thread].Missed? && s.jobs[thread].path in s.files
    ensures var path, r := s.jobs[thread].path, Run(s, [Compile(thread), Tick(wait), Store(thread)]);
            && r.Some? && r.value.files == s.files && r.value.jobs == s.jobs - {thread}
            && r.value.cache == s.cache[path := Template(s.files[path].content, s.clock + wait)]
  {
    RunOne(s, Compile(thread));
    RunTwo(s, Compile(thread), Tick(wait));
    RunThree(s, Compile(thread), Tick(wait), Store(thread));
  }

  /** The steps of a lookup without interference, up to the point where it returns or decides to compile. */
  function CheckSteps(s: State, thread: nat, path: string, maxAge: int): seq<Step>
  {
    if path !in s.cache then [Fetch(thread, path)]
    else if path in s.files && !IsCurrent(s.cache[path], s.files[path].modified) then [Fetch(thread, path), CheckFile(thread)]
    else [Fetch(thread, path), CheckFile(thread), CheckAge(thread, maxAge)]
  }

  /**
   A lookup that nobody interferes with decides like `getTemplate`: it ends with nothing changed if that returns the cached
   template, and is about to compile otherwise.
   */
  lemma ChecksAlone(s: State, thread: nat, path: string, maxAge: int, later: int)
    requires s.readAt.Keys == s.cache.Keys && thread !in s.jobs && path in s.files
    ensures var r, t := Run(s, CheckSteps(s, thread, path, maxAge)),
                        Lookup(Cached(s.cache, path), s.files[path], s.clock, later, maxAge);
            && r.Some?
            && if path in s.cache && IsCurrent(s.cache[path], s.files[path].modified)
                  && IsYoung(s.cache[path], s.clock, maxAge)
               then r.value == s && s.cache == s.cache[path := t]
               else r.value == Working(s, thread, Missed(path)) && t == Template(s.files[path].content, later)
  {
    var a, b, c := Fetch(thread, path), CheckFile(thread), CheckAge(thread, maxAge);
    RunOne(s, a);
    RunTwo(s, a, b);
    RunThree(s, a, b, c);
    if path in s.cache {
      FetchedAlone(s, thread, path);
    }
  }

  lemma Overwritten(s: State, thread: nat, first: Job, second: Job)
    requires thread !in s.jobs
    ensures Working(Working(s, thread, first), thread, second) == Working(s, thread, second)
    ensures s.jobs[thread := first] - {thread} == s.jobs
  {
  }

  lemma FetchedAlone(s: State, thread: nat, path: string)
    requires s.readAt.Keys == s.cache.Keys && thread !in s.jobs && path in s.files && path in s.cache
    ensures var fetched := Working(s, thread, Fetched(path, s.cache[path], s.readAt[path]));
            var current := Working(s, thread, Current(path, s.cache[path], s.readAt[path], s.clock));
            && Next(s, Fetch(thread, path)) == Some(fetched)
            && Next(fetched, CheckFile(thread))
               == (if IsCurrent(s.cache[path], s.files[path].modified) then Some(current)
                   else Some(Working(s, thread, Missed(path))))
            && current.jobs - {thread} == s.jobs
            && Working(current, thread, Missed(path)) == Working(s, thread, Missed(path))
  {
    var fetched, current := Fetched(path, s.cache[path], s.readAt[path]), Current(path, s.cache[path], s.readAt[path], s.clock);
    Overwritten(s, thread, fetched, current);
    Overwritten(s, thread, fetched, Missed(path));
    Overwritten(s, thread, current, Missed(path));
  }

  /**
   The first exception is real: an edit after the file is read and before the template is wrapped stays unnoticed until the
   template is too old.
   */
  lemma EditWhileCompiling(s: State, thread: nat, content: string, wait: nat, maxAge: nat)
    requires s.readAt.Keys == s.cache.Keys
    requires thread in s.jobs && s.jobs[thread].Missed? && s.jobs[thread].path in s.files
    requires content != s.files[s.jobs[thread].path].content && wait <= maxAge
    ensures var path := s.jobs[thread].path;
            var r := Run(s, [Compile(thread), Edit(path, content), Store(thread)]);
            && r.Some? && path in r.value.cache && path in r.value.files
            && IsCurrent(r.value.cache[path], r.value.files[path].modified)
            && IsYoung(r.value.cache[path], r.value.clock + wait, maxAge)
            && r.value.cache[path].content != r.value.files[path].content
  {
    var edit := Edit(s.jobs[thread].path, content);
    RunOne(s, Compile(thread));
    RunTwo(s, Compile(thread), edit);
    RunThree(s, Compile(thread), edit, Store(thread));
  }

  /** So is the second one: an edit after the look at the file does not keep the thread from returning what it holds. */
  lemma EditAfterCheck(s: State, thread: nat, content: string, maxAge: int)
    requires s.readAt.Keys == s.cache.Keys && Returned(s, CheckAge(thread, maxAge)).Some?
    requires content != Returned(s, CheckAge(thread, maxAge)).value.content
    ensures var path, r := s.jobs[thread].path, Run(s, [Edit(s.jobs[thread].path, content)]);
            && r.Some? && path in r.value.files
            && Returned(r.value, CheckAge(thread, maxAge)) == Returned(s, CheckAge(thread, maxAge))
            && Returned(r.value, CheckAge(thread, maxAge)).value.content != r.value.files[path].content
  {
    RunOne(s, Edit(s.jobs[thread].path, content));
  }
}
