/** Which transcript continues another after a clear, and the cache of transcript heads that
    makes looking for it cheap. */
module Heads {
  import opened Prelude

  type Path = string
  type Time = nat

  const HEAD_CACHE_ENTRIES: nat := 256

  /** What a read of a head says, by path, length and modification time: `None` when the head
      cannot be read.  That it is a function of the three is the assumption the cache makes:
      every change of a file changes its length or its time. */
  type Truth = (Path, nat, Time) -> Option<bool>

  /** What a direct read answers: an unreadable head opens on nothing. */
  function Answer(truth: Truth, path: Path, len: nat, modified: Time): bool {
    truth(path, len, modified) == Some(true)
  }

  datatype Entry = Entry(len: nat, modified: Time, answer: bool)

  class HeadCache {
    var entries: map<Path, Entry>
    /** How often the cache had to go to the disk. */
    var headReads: nat

    /** Every entry is what a direct read said, and there are never too many. */
    ghost predicate Valid(truth: Truth)
      reads this
    {
      |entries| <= HEAD_CACHE_ENTRIES &&
      forall p :: p in entries ==>
        truth(p, entries[p].len, entries[p].modified) == Some(entries[p].answer)
    }

    constructor ()
      ensures entries == map[] && headReads == 0
    {
      entries, headReads := map[], 0;
    }

    /** The answer a direct read would give.  `head` is what that read says, should it come to
        one; it does so at most once, and never for an entry still current. */
    method OpensOnAClear(path: Path, len: nat, modified: Time, head: Option<bool>,
                         ghost truth: Truth) returns (opens: bool)
      requires Valid(truth) && head == truth(path, len, modified)
      modifies this
      ensures Valid(truth)
      ensures opens == Answer(truth, path, len, modified)
      ensures old(path in entries && entries[path].len == len && entries[path].modified == modified)
              ==> entries == old(entries) && headReads == old(headReads)
      ensures !old(path in entries && entries[path].len == len && entries[path].modified == modified)
              ==> headReads == old(headReads) + 1
      ensures head.Some? ==> path in entries && entries[path] == Entry(len, modified, head.value)
      ensures forall p :: p in entries && p != path ==> p in old(entries) && entries[p] == old(entries)[p]
    {
      if path in entries && entries[path].len == len && entries[path].modified == modified {
        return entries[path].answer;
      }
      headReads := headReads + 1;
      if head.None? {
        return false;
      }
      if |entries| >= HEAD_CACHE_ENTRIES {
        entries := map[];
      }
      AddedOne(entries, path, Entry(len, modified, head.value));
      entries := entries[path := Entry(len, modified, head.value)];
      return head.value;
    }
  }

  lemma AddedOne(m: map<Path, Entry>, p: Path, e: Entry)
    ensures |m[p := e]| <= |m| + 1
  {
    var m' := m[p := e];
    assert m'.Keys == m.Keys + {p};
    if p in m.Keys {
      assert m'.Keys == m.Keys;
    }
    assert |m'.Keys| <= |m.Keys| + 1;
  }

  // ----- the newest successor

  /** A directory entry: its stem and extension when they read as text, and its length and time
      when its metadata can be read. */
  datatype File = File(path: Path, extension: Option<string>, stem: Option<string>,
                       metadata: Option<(nat, Time)>)

  predicate IsHexDigit(c: char) {
    '0' <= c <= '9' || 'a' <= c <= 'f' || 'A' <= c <= 'F'
  }

  /** The hyphenated form of a UUID, nothing around it. */
  predicate IsUuid(text: string) {
    |text| == 36 &&
    forall k :: 0 <= k < 36 ==>
      if k == 8 || k == 13 || k == 18 || k == 23 then text[k] == '-' else IsHexDigit(text[k])
  }

  /** What the search is for: whose successor, since when, and which sessions are not to be
      taken. `written` is the time of the current transcript, unless that cannot be read. */
  datatype Query = Query(currentId: string, since: Time, written: Option<Time>, claimed: seq<string>)

  /** Another session's transcript whose metadata reads, written late enough to succeed. */
  predicate Candidate(f: File, q: Query) {
    && f.extension == Some("jsonl")
    && f.stem.Some? && f.stem.value != q.currentId && IsUuid(f.stem.value)
    && f.stem.value !in q.claimed
    && f.metadata.Some?
    && f.metadata.value.1 >= q.since
    && (q.written.Some? ==> f.metadata.value.1 > q.written.value)
  }

  /** A candidate that opens on a clear. */
  ghost predicate Eligible(f: File, q: Query, truth: Truth) {
    Candidate(f, q) && Answer(truth, f.path, f.metadata.value.0, f.metadata.value.1)
  }

  /** Why the search passes over a file, and nothing else makes it: it is no transcript by its name,
      it is the current session's or a claimed one's, its metadata cannot be read, it was written
      before the tab began or no later than the current transcript, or it does not open on a
      clear. */
  lemma PassedOver(f: File, q: Query, truth: Truth)
    ensures !Eligible(f, q, truth) <==>
            || f.extension != Some("jsonl") || f.stem.None? || !IsUuid(f.stem.value)
            || f.stem.value == q.currentId || f.stem.value in q.claimed
            || f.metadata.None? || f.metadata.value.1 < q.since
            || (q.written.Some? && f.metadata.value.1 <= q.written.value)
            || truth(f.path, f.metadata.value.0, f.metadata.value.1) != Some(true)
  {
    hide IsUuid;
  }

  function Modified(f: File): Time
    requires f.metadata.Some?
  {
    f.metadata.value.1
  }

  lemma EligibleMeans(q: Query, truth: Truth)
    ensures forall f :: Candidate(f, q) ==> f.metadata.Some?
    ensures forall f :: Candidate(f, q) ==>
              (Eligible(f, q, truth) <==> Answer(truth, f.path, f.metadata.value.0, f.metadata.value.1))
    ensures forall f :: Eligible(f, q, truth) ==>
              && Candidate(f, q) && f.stem.Some? && f.stem.value !in q.claimed && f.stem.value != q.currentId
              && Modified(f) >= q.since && (q.written.Some? ==> Modified(f) > q.written.value)
  {
    hide IsUuid, Answer;
  }

  /** The pruned search: a head is only asked for when its file would be chosen.  Whatever the
      order of the directory, the result is an eligible file no eligible file is newer than, or
      there is none. */
  method NewestClearedTranscript(cache: HeadCache, files: seq<File>, q: Query,
                                 heads: (Path, nat, Time) -> Option<bool>)
      returns (newest: Option<File>)
    requires cache.Valid(heads)
    modifies cache
    ensures cache.Valid(heads)
    ensures newest.None? ==> forall k :: 0 <= k < |files| ==> !Eligible(files[k], q, heads)
    ensures newest.Some? ==>
              && newest.value.stem.Some? && newest.value.stem.value !in q.claimed
              && newest.value.stem.value != q.currentId && newest.value.metadata.Some?
              && Modified(newest.value) >= q.since
              && (q.written.Some? ==> Modified(newest.value) > q.written.value)
    ensures newest.Some? ==>
              && newest.value in files && Eligible(newest.value, q, heads)
              && forall k :: 0 <= k < |files| && Eligible(files[k], q, heads) ==>
                   Modified(files[k]) <= Modified(newest.value)
  {
    hide Eligible, Candidate, IsUuid, Answer;
    EligibleMeans(q, heads);
    newest := None;
    for n := 0 to |files|
      invariant cache.Valid(heads)
      invariant newest.None? ==> forall k :: 0 <= k < n ==> !Eligible(files[k], q, heads)
      invariant newest.Some? ==> newest.value in files && Eligible(newest.value, q, heads)
      invariant newest.Some? ==>
                  forall k :: 0 <= k < n && Eligible(files[k], q, heads) ==>
                    Modified(files[k]) <= Modified(newest.value)
    {
      var f := files[n];
      if Candidate(f, q) && !(newest.Some? && Modified(newest.value) >= Modified(f)) {
        var len, modified := f.metadata.value.0, f.metadata.value.1;
        var opens := cache.OpensOnAClear(f.path, len, modified, heads(f.path, len, modified), heads);
        if opens {
          newest := Some(f);
        }
      }
    }
  }

  // ----- chains of successors

  /** `next` is what the search finds for the tab on `current`, whose own metadata reads. */
  ghost predicate Succeeds(current: File, next: File, since: Time, claimed: seq<string>, truth: Truth) {
    && current.stem.Some? && current.metadata.Some?
    && Eligible(next, Query(current.stem.value, since, Some(Modified(current)), claimed), truth)
  }

  ghost predicate Chain(files: seq<File>, since: Time, claimed: seq<string>, truth: Truth) {
    forall k :: 0 <= k < |files| - 1 ==> Succeeds(files[k], files[k + 1], since, claimed, truth)
  }

  /** Each path is read once: two of the files at one path are the same file as it was then. */
  ghost predicate OneState(files: seq<File>) {
    forall i, j :: 0 <= i < |files| && 0 <= j < |files| && files[i].path == files[j].path ==>
      files[i].metadata == files[j].metadata
  }

  /** Along a chain of successors the times strictly increase.  So the chain comes back to a path
      only if the file there was written again in between, and never in one state of the
      directory. */
  lemma {:induction false} ChainNeverCycles(
      files: seq<File>, since: Time, claimed: seq<string>, truth: Truth, i: nat, j: nat)
    requires Chain(files, since, claimed, truth) && i < j < |files|
    ensures files[i].metadata.Some? && files[j].metadata.Some?
    ensures Modified(files[i]) < Modified(files[j])
    ensures OneState(files) ==> files[i].path != files[j].path
    decreases j - i
  {
    hide IsUuid;
    assert Succeeds(files[j - 1], files[j], since, claimed, truth);
    if i < j - 1 {
      ChainNeverCycles(files, since, claimed, truth, i, j - 1);
    }
  }

  /** One state of the directory is exactly what keeps a chain from coming back to a path. */
  lemma OneStateIsNoCycle(files: seq<File>, since: Time, claimed: seq<string>, truth: Truth)
    requires Chain(files, since, claimed, truth)
    ensures OneState(files) <==> forall i, j :: 0 <= i < j < |files| ==> files[i].path != files[j].path
  {
    hide Chain;
    if OneState(files) {
      forall i, j | 0 <= i < j < |files|
        ensures files[i].path != files[j].path
      {
        ChainNeverCycles(files, since, claimed, truth, i, j);
      }
    }
  }

  /** A file written again can be a successor again: the state of the directory matters. */
  lemma RewrittenComesBack(a: File, b: File, again: File, truth: Truth)
    requires a.metadata == Some((1, 1)) && b.metadata == Some((1, 2)) && again.metadata == Some((2, 3))
    requires a.path == again.path && a.stem == again.stem && a.extension == b.extension == Some("jsonl")
    requires again.extension == a.extension && a.stem.Some? && b.stem.Some? && a.stem != b.stem
    requires IsUuid(a.stem.value) && IsUuid(b.stem.value)
    requires truth(b.path, 1, 2) == Some(true) && truth(again.path, 2, 3) == Some(true)
    ensures Chain([a, b, again], 0, [], truth) && a.path == again.path
  {
    hide IsUuid;
    assert Succeeds(a, b, 0, [], truth);
    assert Succeeds(b, again, 0, [], truth);
  }
}
