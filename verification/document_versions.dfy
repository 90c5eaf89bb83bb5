/** Saving a document: editors read, edit and save concurrently; a save is accepted only over the
    version it was based on, and each accepted save records a version row. */
module DocumentVersions {
  import opened Prelude

  type Id = nat
  type Content = nat

  /** A document_version row. */
  datatype Version = Version(number: int, content: Content, author: Id)

  /** What an editor has open: the version and content it read. */
  datatype Draft = Draft(base: int, read: Content)

  /** An accepted save: who, over which version, having read what, leaving what. */
  datatype Save = Save(author: Id, base: int, read: Content, content: Content)

  /** The document row, its version rows, what editors have open, and the accepted saves. */
  datatype World = World(
    content: Content, versionCount: int, deleted: bool, versions: seq<Version>,
    drafts: map<Id, Draft>, accepted: seq<Save>)

  /** An editor opens the document; saves it; somebody deletes it. A save may fail after the document row
      was updated (recording the version, or the embeds), and is then rolled back as a whole. */
  datatype Step = Open(editor: Id) | Store(editor: Id, content: Content, failsLater: bool) | Delete

  /** CreateDocument: version_count starts at 1; `recorded` says whether the initial version row was written,
      whose error the handler only logs. */
  function Created(author: Id, content: Content, recorded: bool): World {
    World(content, 1, false, if recorded then [Version(1, content, author)] else [], map[], [])
  }

  /** GetLatestVersionNumber. */
  function LatestNumber(versions: seq<Version>): int {
    if versions == [] then 0 else Max(LatestNumber(versions[..|versions| - 1]), versions[|versions| - 1].number)
  }

  /** UpdateDocument's WHERE clause. */
  predicate Accepts(w: World, base: int) {
    !w.deleted && w.versionCount == base
  }

  function Apply(w: World, s: Step): World {
    match s
    case Open(e) => if w.deleted then w else w.(drafts := w.drafts[e := Draft(w.versionCount, w.content)])
    case Delete => w.(deleted := true)
    case Store(e, content, failsLater) =>
      if e !in w.drafts || !Accepts(w, w.drafts[e].base) || failsLater then w
      else
        var d := w.drafts[e];
        World(content, w.versionCount + 1, false,
              w.versions + [Version(LatestNumber(w.versions) + 1, content, e)],
              w.drafts[e := Draft(w.versionCount + 1, content)],
              w.accepted + [Save(e, d.base, d.read, content)])
  }

  /** When a save goes through: the editor has the document open at the version it is at, nobody has deleted it,
      and nothing fails afterwards. Then it is the next version; otherwise nothing has happened. */
  lemma StoreGoesThroughIff(w: World, e: Id, content: Content, failsLater: bool)
    ensures var after := Apply(w, Store(e, content, failsLater));
      if e in w.drafts && w.drafts[e].base == w.versionCount && !w.deleted && !failsLater then
        && after.content == content && after.versionCount == w.versionCount + 1 && !after.deleted
        && after.drafts == w.drafts[e := Draft(w.versionCount + 1, content)]
        && |after.accepted| == |w.accepted| + 1 && |after.versions| == |w.versions| + 1
      else after == w
  {
  }

  /** Opening takes note of the version and content there are; a deleted document cannot be opened, and deletion
      is for good: no later step changes anything but itself. */
  lemma OpeningAndDeleting(w: World, e: Id, s: Step)
    ensures !w.deleted ==> Apply(w, Open(e)).drafts == w.drafts[e := Draft(w.versionCount, w.content)]
    ensures Apply(w, Open(e)).(drafts := w.drafts) == w
    ensures Apply(w, Delete) == w.(deleted := true)
    ensures w.deleted ==> Apply(w, s) == w
  {
  }

  /** A created document is live, at version 1, with nobody editing. */
  lemma CreatedIsLive(author: Id, content: Content, recorded: bool)
    ensures var w := Created(author, content, recorded);
      && w.content == content && w.versionCount == 1 && !w.deleted && w.drafts == map[] && w.accepted == []
      && (w.versions == [Version(1, content, author)] <==> recorded) && (w.versions == [] <==> !recorded)
  {
  }

  lemma OneMoreStep(w: World, steps: seq<Step>, s: Step)
    ensures Run(w, steps + [s]) == Apply(Run(w, steps), s)
  {
    assert (steps + [s])[..|steps|] == steps;
  }

  function Run(w: World, steps: seq<Step>): World
    decreases |steps|
  {
    if steps == [] then w else Apply(Run(w, steps[..|steps| - 1]), steps[|steps| - 1])
  }

  /** The content of version n: the initial one, then each accepted save in turn. */
  function ContentAt(initial: Content, accepted: seq<Save>, n: int): Content
    requires 1 <= n <= |accepted| + 1
  {
    if n == 1 then initial else accepted[n - 2].content
  }

  /** Accepted save k went over version k + 1, whose content its author had read. */
  ghost predicate ChainedAt(initial: Content, accepted: seq<Save>, k: nat)
    requires k < |accepted|
  {
    accepted[k].base == k + 1 && accepted[k].read == ContentAt(initial, accepted, k + 1)
  }

  ghost predicate DraftOk(initial: Content, w: World, d: Draft) {
    1 <= d.base <= |w.accepted| + 1 && d.read == ContentAt(initial, w.accepted, d.base)
  }

  ghost predicate Chain(initial: Content, w: World) {
    && w.versionCount == |w.accepted| + 1
    && w.content == ContentAt(initial, w.accepted, w.versionCount)
    && (forall k :: 0 <= k < |w.accepted| ==> ChainedAt(initial, w.accepted, k))
    && (forall e :: e in w.drafts ==> DraftOk(initial, w, w.drafts[e]))
  }

  lemma ApplyKeepsChain(initial: Content, w: World, s: Step)
    requires Chain(initial, w)
    ensures Chain(initial, Apply(w, s))
  {
    var v := Apply(w, s);
    if s.Store? && v != w && s.editor in w.drafts {
      assert DraftOk(initial, w, w.drafts[s.editor]);
      forall k | 0 <= k < |v.accepted|
        ensures ChainedAt(initial, v.accepted, k)
      {
        if k < |w.accepted| { assert ChainedAt(initial, w.accepted, k); }
      }
      forall e | e in v.drafts
        ensures DraftOk(initial, v, v.drafts[e])
      {
        if e != s.editor { assert DraftOk(initial, w, w.drafts[e]); }
      }
    }
  }

  /** Over every interleaving of any number of editors: the accepted saves form one chain. Each base version
      is accepted once, version_count is one more than the number of accepted saves, and no save is accepted
      over content its author had not read. */
  lemma {:induction false} AcceptedSavesFormOneChain(author: Id, initial: Content, recorded: bool, steps: seq<Step>)
    ensures var w := Run(Created(author, initial, recorded), steps);
      && w.versionCount == |w.accepted| + 1
      && (forall k :: 0 <= k < |w.accepted| ==> ChainedAt(initial, w.accepted, k))
      && w.content == ContentAt(initial, w.accepted, w.versionCount)
    ensures Chain(initial, Run(Created(author, initial, recorded), steps))
    decreases |steps|
  {
    if steps != [] {
      AcceptedSavesFormOneChain(author, initial, recorded, steps[..|steps| - 1]);
      ApplyKeepsChain(initial, Run(Created(author, initial, recorded), steps[..|steps| - 1]), steps[|steps| - 1]);
    }
  }

  /** Of several editors saving over one version, exactly the first to be accepted is: two accepted saves
      never share a base. */
  lemma EachBaseOnce(author: Id, initial: Content, recorded: bool, steps: seq<Step>, j: nat, k: nat)
    requires var saves := Run(Created(author, initial, recorded), steps).accepted;
      j < |saves| && k < |saves| && saves[j].base == saves[k].base
    ensures j == k
  {
    AcceptedSavesFormOneChain(author, initial, recorded, steps);
    var saves := Run(Created(author, initial, recorded), steps).accepted;
    assert ChainedAt(initial, saves, j) && ChainedAt(initial, saves, k);
  }

  // ----- The version rows -----

  /** The rows are numbered from 1 without gaps, and the i-th row after the initial one is accepted save i. */
  ghost predicate Recorded(w: World, offset: nat) {
    && |w.versions| == |w.accepted| + offset
    && LatestNumber(w.versions) == |w.versions|
    && (forall i :: 0 <= i < |w.versions| ==> w.versions[i].number == i + 1)
    && (forall i :: 0 <= i < |w.accepted| ==>
          w.versions[i + offset].content == w.accepted[i].content
          && w.versions[i + offset].author == w.accepted[i].author)
  }

  lemma AppendedNumber(versions: seq<Version>, v: Version)
    ensures LatestNumber(versions + [v]) == Max(LatestNumber(versions), v.number)
  {
    assert (versions + [v])[..|versions|] == versions;
  }

  lemma ApplyKeepsRecorded(w: World, s: Step, offset: nat)
    requires Recorded(w, offset)
    ensures Recorded(Apply(w, s), offset)
  {
    var v := Apply(w, s);
    if s.Store? && v.versions != w.versions {
      AppendedNumber(w.versions, v.versions[|w.versions|]);
      assert v.versions == w.versions + [v.versions[|w.versions|]];
    }
  }

  /** Version rows are numbered 1, 2, 3, ... in the order of the accepted saves, a save that failed half-way
      leaving none. The latest number is version_count, as the conflict message assumes, if and only if
      the initial version was recorded. */
  lemma {:induction false} VersionsFollowTheSaves(author: Id, initial: Content, recorded: bool, steps: seq<Step>)
    ensures var w := Run(Created(author, initial, recorded), steps);
      && Recorded(w, if recorded then 1 else 0)
      && (LatestNumber(w.versions) == w.versionCount <==> recorded)
    decreases |steps|
  {
    if steps == [] {
      if recorded { AppendedNumber([], Version(1, initial, author)); }
      assert [] + [Version(1, initial, author)] == [Version(1, initial, author)];
    } else {
      VersionsFollowTheSaves(author, initial, recorded, steps[..|steps| - 1]);
      ApplyKeepsRecorded(Run(Created(author, initial, recorded), steps[..|steps| - 1]), steps[|steps| - 1],
                         if recorded then 1 else 0);
    }
    AcceptedSavesFormOneChain(author, initial, recorded, steps);
  }

  /** One document's rows, updated in place. */
  class DocumentTables {
    var content: Content
    var versionCount: int
    var deleted: bool
    var versions: seq<Version>

    constructor (author: Id, initial: Content)
      ensures content == initial && versionCount == 1 && !deleted && versions == [Version(1, initial, author)]
    {
      content, versionCount, deleted, versions := initial, 1, false, [Version(1, initial, author)];
    }

    /** A row comes back exactly when the document is live and still at the base version. */
    method UpdateDocument(newContent: Content, base: int) returns (row: bool)
      modifies this
      ensures row <==> !old(deleted) && old(versionCount) == base
      ensures content == (if row then newContent else old(content))
      ensures versionCount == old(versionCount) + (if row then 1 else 0)
      ensures deleted == old(deleted) && versions == old(versions)
    {
      row := !deleted && versionCount == base;
      if row {
        content, versionCount := newContent, versionCount + 1;
      }
    }

    method CreateVersion(newContent: Content, author: Id)
      modifies this
      ensures versions == old(versions) + [Version(LatestNumber(old(versions)) + 1, newContent, author)]
      ensures content == old(content) && versionCount == old(versionCount) && deleted == old(deleted)
    {
      versions := versions + [Version(LatestNumber(versions) + 1, newContent, author)];
    }

    /** The save, inside its transaction: refused over a stale base, and undone as a whole when something
        after the row update fails. What it does to the tables is what Apply says of Store. */
    method SaveDocument(author: Id, newContent: Content, base: int, failsLater: bool) returns (saved: bool)
      modifies this
      ensures saved <==> !old(deleted) && old(versionCount) == base && !failsLater
      ensures forall w: World ::
        w.content == old(content) && w.versionCount == old(versionCount) && w.deleted == old(deleted)
        && w.versions == old(versions) && author in w.drafts && w.drafts[author].base == base ==>
          var v := Apply(w, Store(author, newContent, failsLater));
          content == v.content && versionCount == v.versionCount && deleted == v.deleted && versions == v.versions
    {
      if versionCount != base {
        return false;
      }
      var before, beforeCount, beforeVersions := content, versionCount, versions;
      saved := UpdateDocument(newContent, base);
      if !saved {
        return;
      }
      if failsLater {
        content, versionCount, versions := before, beforeCount, beforeVersions;
        return false;
      }
      CreateVersion(newContent, author);
    }
  }
}
