/**
 * Vulnerability reconciliation (`com.securityanalyzer.backend.util.ApplicationUtils`):
 * one list of findings is kept per (portal, branch) and is brought up to
 * date against each freshly scanned list. A finding is identified by its
 * `id` together with the component it comes `from`; no other field takes
 * part in identity.
 */
module ApplicationUtils {
  import opened Wrappers
  import opened JsonValue

  /** The state given to a finding the scanner reported without one. */
  const NewState: string := "new"

  /** The branch whose document is named after the portal alone. */
  const MainBranch: string := "main"

  /**
   * A scanned finding: its identifier, the component it was found in, its
   * lifecycle state (`None` for a JSON `null`) and the scanner's other
   * fields, carried along unread.
   */
  datatype Vulnerability = Vulnerability(id: string, from: string, state: Option<string>, extra: map<string, Json>)

  type FindingKey = (string, string)

  /** The identity of a finding. */
  function Key(v: Vulnerability): (k: FindingKey)
  {
    (v.id, v.from)
  }

  /** The identities present in a list. */
  function Keys(list: seq<Vulnerability>): (ks: set<FindingKey>)
    decreases |list|
  {
    if list == [] then {} else Keys(list[..|list| - 1]) + {Key(list[|list| - 1])}
  }

  /** No identity occurs twice in the list. */
  ghost predicate DistinctKeys(list: seq<Vulnerability>)
  {
    forall i, j :: 0 <= i < j < |list| ==> Key(list[i]) != Key(list[j])
  }

  /** `a` is `b` with some elements left out and the rest in their order. */
  predicate Subsequence<T(==)>(a: seq<T>, b: seq<T>)
    decreases |b|
  {
    if a == [] then true
    else if b == [] then false
    else if a[|a| - 1] == b[|b| - 1] then Subsequence(a[..|a| - 1], b[..|b| - 1])
    else Subsequence(a, b[..|b| - 1])
  }

  // ---------------------------------------------------------------------
  // Identities and subsequences

  /** An identity is in `Keys(list)` exactly when some element carries it. */
  lemma {:induction false} KeysAt(list: seq<Vulnerability>, k: FindingKey)
    ensures k in Keys(list) <==> exists i :: 0 <= i < |list| && Key(list[i]) == k
    decreases |list|
  {
    if list != [] {
      var init := list[..|list| - 1];
      KeysAt(init, k);
      if k in Keys(init) {
        var i :| 0 <= i < |init| && Key(init[i]) == k;
        assert Key(list[i]) == k;
      }
      if exists i :: 0 <= i < |list| && Key(list[i]) == k {
        var i :| 0 <= i < |list| && Key(list[i]) == k;
        if i < |init| {
          assert Key(init[i]) == k;
        }
      }
    }
  }

  /** Every element's identity is among the list's identities. */
  lemma KeyOfMember(list: seq<Vulnerability>, v: Vulnerability)
    requires v in list
    ensures Key(v) in Keys(list)
  {
    var i :| 0 <= i < |list| && list[i] == v;
    KeysAt(list, Key(v));
  }

  lemma {:induction false} KeysAppend(a: seq<Vulnerability>, b: seq<Vulnerability>)
    ensures Keys(a + b) == Keys(a) + Keys(b)
    decreases |b|
  {
    if b == [] {
      assert a + b == a;
    } else {
      var init := b[..|b| - 1];
      assert (a + b)[..|a + b| - 1] == a + init;
      KeysAppend(a, init);
    }
  }

  /** A list without identities is empty. */
  lemma NoKeysNoElements(list: seq<Vulnerability>)
    requires Keys(list) == {}
    ensures list == []
  {
  }

  /** Leaving out more of `b` keeps a subsequence one. */
  lemma {:induction false} SubsequenceSnoc<T>(a: seq<T>, b: seq<T>, x: T)
    requires Subsequence(a, b)
    ensures Subsequence(a, b + [x])
    decreases |b|, 1
  {
    if a != [] {
      assert (b + [x])[..|b|] == b;
      if a[|a| - 1] == x {
        SubsequenceDropLast(a, b);
      }
    }
  }

  /** Dropping the last element of a subsequence keeps it one. */
  lemma {:induction false} SubsequenceDropLast<T>(a: seq<T>, b: seq<T>)
    requires a != [] && Subsequence(a, b)
    ensures Subsequence(a[..|a| - 1], b)
    decreases |b|, 0
  {
    var a', b' := a[..|a| - 1], b[..|b| - 1];
    assert b' + [b[|b| - 1]] == b;
    if a[|a| - 1] == b[|b| - 1] {
      SubsequenceSnoc(a', b', b[|b| - 1]);
    } else {
      SubsequenceDropLast(a, b');
      SubsequenceSnoc(a', b', b[|b| - 1]);
    }
  }

  // ---------------------------------------------------------------------
  // checkExistenceOfVulnerabilityInTheList

  /**
   * `checkExistenceOfVulnerabilityInTheList(list, v)`: a linear scan for an
   * element with the same `id` and the same `from` as `v`.
   */
  method CheckExistenceOfVulnerability(list: seq<Vulnerability>, v: Vulnerability) returns (found: bool)
    ensures found <==> exists i :: 0 <= i < |list| && list[i].id == v.id && list[i].from == v.from
    ensures found <==> Key(v) in Keys(list)
  {
    KeysAt(list, Key(v));
    for i := 0 to |list|
      invariant forall j :: 0 <= j < i ==> !(list[j].id == v.id && list[j].from == v.from)
    {
      if list[i].id == v.id && list[i].from == v.from {
        return true;
      }
    }
    return false;
  }

  // ---------------------------------------------------------------------
  // getVulnerabilityListFromJSON

  /** Why ingestion fails: the document for the portal and branch does not exist. */
  datatype IngestError = FileNotFound(path: string)

  /** The scan document of a portal's branch: `<portal>.json` on main, `<portal>_<branch>.json` elsewhere. */
  function DocumentName(portal: string, branch: string): (r: string)
    ensures |r| >= |portal| + 5
    ensures r[..|portal|] == portal && r[|r| - 5..] == ".json"
    ensures branch == MainBranch ==> |r| == |portal| + 5
    ensures branch != MainBranch ==> && |r| == |portal| + |branch| + 6
                                     && r[|portal|] == '_'
                                     && r[|portal| + 1..|r| - 5] == branch
  {
    if branch == MainBranch then portal + ".json" else portal + "_" + branch + ".json"
  }

  /** A finding as stored: a `null` state becomes "new"; everything else is kept. */
  function WithDefaultState(v: Vulnerability): (r: Vulnerability)
    ensures r.id == v.id && r.from == v.from && r.extra == v.extra
    ensures v.state.Some? ==> r.state == v.state
    ensures v.state.None? ==> r.state == Some(NewState)
  {
    if v.state.None? then v.(state := Some(NewState)) else v
  }

  /**
   * `getVulnerabilityListFromJSON(portal, branch)`. `documents` maps each
   * scan document present in the working directory to its decoded
   * `vulnerabilities` array. A missing document is an error passed to the
   * caller; otherwise there is one finding per array element, in array
   * order, each with its state defaulted.
   */
  method GetVulnerabilityListFromJson(portal: string, branch: string, documents: map<string, seq<Vulnerability>>)
    returns (r: Result<seq<Vulnerability>, IngestError>)
    ensures DocumentName(portal, branch) !in documents ==>
              r == Failure(FileNotFound(DocumentName(portal, branch)))
    ensures DocumentName(portal, branch) in documents ==> r.Success?
    ensures r.Success? ==> var raw := documents[DocumentName(portal, branch)];
              && |r.value| == |raw|
              && (forall i :: 0 <= i < |raw| ==> r.value[i] == WithDefaultState(raw[i]))
    ensures r.Success? ==> forall v :: v in r.value ==> v.state.Some?
  {
    var path := DocumentName(portal, branch);
    if path !in documents {
      return Failure(FileNotFound(path));
    }
    var raw := documents[path];
    var vulnerabilities: seq<Vulnerability> := [];
    for i := 0 to |raw|
      invariant |vulnerabilities| == i
      invariant forall j :: 0 <= j < i ==> vulnerabilities[j] == WithDefaultState(raw[j])
    {
      var v := raw[i];
      if v.state.None? {
        v := v.(state := Some(NewState));
      }
      vulnerabilities := vulnerabilities + [v];
    }
    r := Success(vulnerabilities);
  }

  /** Ingestion keeps every identity of the scanned array. */
  lemma {:induction false} DefaultStateKeepsKeys(raw: seq<Vulnerability>, ingested: seq<Vulnerability>)
    requires |ingested| == |raw|
    requires forall i :: 0 <= i < |raw| ==> ingested[i] == WithDefaultState(raw[i])
    ensures Keys(ingested) == Keys(raw)
    decreases |raw|
  {
    if raw != [] {
      DefaultStateKeepsKeys(raw[..|raw| - 1], ingested[..|ingested| - 1]);
    }
  }

  /**
   * Portals without an underscore in their names never share a document:
   * the name determines the portal and the branch.
   */
  lemma DocumentNameInjective(p1: string, b1: string, p2: string, b2: string)
    requires '_' !in p1 && '_' !in p2
    requires DocumentName(p1, b1) == DocumentName(p2, b2)
    ensures p1 == p2
    ensures b1 == b2
  {
    var n := DocumentName(p1, b1);
    if b1 == MainBranch && b2 != MainBranch {
      NoUnderscoreAt(p1, p2, b2);
    } else if b1 != MainBranch && b2 == MainBranch {
      NoUnderscoreAt(p2, p1, b1);
    } else if b1 == MainBranch {
      assert p1 == n[..|n| - 5] == p2;
    } else {
      assert n[|p1|] == '_' && n[|p2|] == '_';
      assert forall k :: 0 <= k < |p1| ==> n[k] == p1[k];
      assert forall k :: 0 <= k < |p2| ==> n[k] == p2[k];
      assert |p1| == |p2|;
      assert p1 == n[..|p1|] == p2;
      assert b1 == n[|p1| + 1..|n| - 5] == b2;
    }
  }

  /** A main-branch name of an underscore-free portal has no underscore where a branch name has one. */
  lemma NoUnderscoreAt(p: string, q: string, b: string)
    requires '_' !in p && '_' !in q && b != MainBranch
    ensures DocumentName(p, MainBranch) != DocumentName(q, b)
  {
    var m, n := DocumentName(p, MainBranch), DocumentName(q, b);
    assert n[|q|] == '_';
    if |q| < |m| {
      if |q| < |p| {
        assert m[|q|] == p[|q|];
      } else {
        assert m[|q|] == ".json"[|q| - |p|];
      }
    }
  }

  /** The main branch of `acme` reads `acme.json`; its `dev` branch reads `acme_dev.json`. */
  lemma DocumentNameExamples()
    ensures DocumentName("acme", MainBranch) == "acme.json"
    ensures DocumentName("acme", "dev") == "acme_dev.json"
  {
  }

  /** Without that restriction two (portal, branch) pairs can read the same document. */
  lemma DocumentNameCollision()
    ensures DocumentName("acme_dev", MainBranch) == DocumentName("acme", "dev")
  {
  }

  // ---------------------------------------------------------------------
  // addNewlyIdentifiedVulnerabilities

  /**
   * The stored list after `addNewlyIdentifiedVulnerabilities`: each fresh
   * finding in turn is appended unless its identity is already in the list
   * as grown so far.
   */
  function Merged(base: seq<Vulnerability>, scanned: seq<Vulnerability>): (merged: seq<Vulnerability>)
    decreases |scanned|
  {
    if scanned == [] then base
    else
      var prior := Merged(base, scanned[..|scanned| - 1]);
      var v := scanned[|scanned| - 1];
      if Key(v) in Keys(prior) then prior else prior + [v]
  }

  /**
   * The fresh findings that are new: in scan order, those whose
   * identity is neither stored already nor earlier in the fresh list.
   */
  function Novel(base: seq<Vulnerability>, scanned: seq<Vulnerability>): (novel: seq<Vulnerability>)
    decreases |scanned|
  {
    if scanned == [] then []
    else
      var earlier := scanned[..|scanned| - 1];
      var v := scanned[|scanned| - 1];
      Novel(base, earlier) + (if Key(v) in Keys(base) + Keys(earlier) then [] else [v])
  }

  /** After the merge the stored identities are the old ones and the fresh ones. */
  lemma {:induction false} MergedKeys(base: seq<Vulnerability>, scanned: seq<Vulnerability>)
    ensures Keys(Merged(base, scanned)) == Keys(base) + Keys(scanned)
    decreases |scanned|
  {
    if scanned != [] {
      var prior := Merged(base, scanned[..|scanned| - 1]);
      MergedKeys(base, scanned[..|scanned| - 1]);
      assert (prior + [scanned[|scanned| - 1]])[..|prior|] == prior;
    }
  }

  /**
   * The merge keeps the stored list as a prefix, untouched ("first write
   * wins"), and appends exactly the new fresh findings.
   */
  lemma {:induction false} MergedIsBasePlusNovel(base: seq<Vulnerability>, scanned: seq<Vulnerability>)
    ensures Merged(base, scanned) == base + Novel(base, scanned)
    decreases |scanned|
  {
    if scanned != [] {
      var earlier := scanned[..|scanned| - 1];
      MergedIsBasePlusNovel(base, earlier);
      MergedKeys(base, earlier);
    }
  }

  /** The appended findings carry exactly the fresh identities that were not stored. */
  lemma {:induction false} NovelKeys(base: seq<Vulnerability>, scanned: seq<Vulnerability>)
    ensures Keys(Novel(base, scanned)) == Keys(scanned) - Keys(base)
    decreases |scanned|
  {
    if scanned != [] {
      var earlier := scanned[..|scanned| - 1];
      var v := scanned[|scanned| - 1];
      NovelKeys(base, earlier);
      KeysAppend(Novel(base, earlier), if Key(v) in Keys(base) + Keys(earlier) then [] else [v]);
    }
  }

  /**
   * The appended findings come from the fresh list, in its order, and no
   * identity is appended twice.
   */
  lemma {:induction false} NovelFromFresh(base: seq<Vulnerability>, scanned: seq<Vulnerability>)
    ensures Subsequence(Novel(base, scanned), scanned)
    ensures DistinctKeys(Novel(base, scanned))
    decreases |scanned|
  {
    if scanned != [] {
      var earlier := scanned[..|scanned| - 1];
      var v := scanned[|scanned| - 1];
      var n := Novel(base, earlier);
      NovelFromFresh(base, earlier);
      assert earlier + [v] == scanned;
      if Key(v) in Keys(base) + Keys(earlier) {
        assert Novel(base, scanned) == n + [] == n;
        SubsequenceSnoc(n, earlier, v);
      } else {
        assert (n + [v])[..|n|] == n;
        NovelKeys(base, earlier);
        forall i | 0 <= i < |n| ensures Key(n[i]) != Key(v) {
          KeysAt(n, Key(n[i]));
        }
      }
    }
  }

  /** A merge with a fresh list whose identities are all stored appends nothing. */
  lemma MergedNothingNew(base: seq<Vulnerability>, scanned: seq<Vulnerability>)
    requires Keys(scanned) <= Keys(base)
    ensures Merged(base, scanned) == base
  {
    NovelKeys(base, scanned);
    NoKeysNoElements(Novel(base, scanned));
    MergedIsBasePlusNovel(base, scanned);
  }

  /** Merging the same fresh list twice is merging it once. */
  lemma MergedIdempotent(base: seq<Vulnerability>, scanned: seq<Vulnerability>)
    ensures Merged(Merged(base, scanned), scanned) == Merged(base, scanned)
  {
    MergedKeys(base, scanned);
    MergedNothingNew(Merged(base, scanned), scanned);
  }

  /** A stored list without repeated identities keeps that property through the merge. */
  lemma MergedKeepsDistinct(base: seq<Vulnerability>, scanned: seq<Vulnerability>)
    requires DistinctKeys(base)
    ensures DistinctKeys(Merged(base, scanned))
  {
    var n := Novel(base, scanned);
    MergedIsBasePlusNovel(base, scanned);
    NovelFromFresh(base, scanned);
    NovelKeys(base, scanned);
    var m := base + n;
    forall i, j | 0 <= i < j < |m| ensures Key(m[i]) != Key(m[j]) {
      if j >= |base| && i < |base| {
        KeysAt(base, Key(m[i]));
        KeysAt(n, Key(m[j]));
        assert m[j] == n[j - |base|];
      } else if i >= |base| {
        assert m[i] == n[i - |base|] && m[j] == n[j - |base|];
      }
    }
  }

  /** The list that `java.util.ArrayList<Vulnerability>` holds for a caller. */
  class VulnerabilityList {
    var items: seq<Vulnerability>

    constructor (items: seq<Vulnerability>)
      ensures this.items == items
    {
      this.items := items;
    }
  }

  /**
   * `addNewlyIdentifiedVulnerabilities(vulnerabilities, oldList)`: appends
   * to the caller's list, in place, every fresh finding whose identity it
   * does not yet hold.
   */
  method AddNewlyIdentifiedVulnerabilities(vulnerabilities: seq<Vulnerability>, oldList: VulnerabilityList)
    modifies oldList
    ensures oldList.items == Merged(old(oldList.items), vulnerabilities)
    ensures oldList.items == old(oldList.items) + Novel(old(oldList.items), vulnerabilities)
    ensures Keys(oldList.items) == Keys(old(oldList.items)) + Keys(vulnerabilities)
  {
    ghost var base := oldList.items;
    var counter := 0;
    while counter < |vulnerabilities|
      invariant 0 <= counter <= |vulnerabilities|
      invariant oldList.items == Merged(base, vulnerabilities[..counter])
    {
      var v := vulnerabilities[counter];
      assert vulnerabilities[..counter + 1][..counter] == vulnerabilities[..counter];
      var present := CheckExistenceOfVulnerability(oldList.items, v);
      if !present {
        oldList.items := oldList.items + [v];
      }
      counter := counter + 1;
    }
    assert vulnerabilities[..counter] == vulnerabilities;
    MergedIsBasePlusNovel(base, vulnerabilities);
    MergedKeys(base, vulnerabilities);
  }

  // ---------------------------------------------------------------------
  // removeFalsePositives

  /** The stored findings, in order, whose identity the fresh scan still reports. */
  function Retained(scanned: seq<Vulnerability>, stored: seq<Vulnerability>): (kept: seq<Vulnerability>)
    decreases |stored|
  {
    if stored == [] then []
    else
      var v := stored[|stored| - 1];
      Retained(scanned, stored[..|stored| - 1]) + (if Key(v) in Keys(scanned) then [v] else [])
  }

  /** Pruning keeps stored findings in their order. */
  lemma {:induction false} RetainedIsSubsequence(scanned: seq<Vulnerability>, stored: seq<Vulnerability>)
    ensures Subsequence(Retained(scanned, stored), stored)
    decreases |stored|
  {
    if stored != [] {
      var init := stored[..|stored| - 1];
      var v := stored[|stored| - 1];
      var r := Retained(scanned, init);
      RetainedIsSubsequence(scanned, init);
      assert init + [v] == stored;
      if Key(v) in Keys(scanned) {
        assert (r + [v])[..|r|] == r;
      } else {
        assert Retained(scanned, stored) == r + [] == r;
        SubsequenceSnoc(r, init, v);
      }
    }
  }

  /** A finding survives pruning exactly when it was stored and is still reported. */
  lemma {:induction false} RetainedMembers(scanned: seq<Vulnerability>, stored: seq<Vulnerability>)
    ensures forall v :: v in Retained(scanned, stored) <==> v in stored && Key(v) in Keys(scanned)
    decreases |stored|
  {
    if stored != [] {
      var init := stored[..|stored| - 1];
      RetainedMembers(scanned, init);
      assert init + [stored[|stored| - 1]] == stored;
    }
  }

  /** The identities left after pruning are the stored ones that are still reported. */
  lemma {:induction false} RetainedKeys(scanned: seq<Vulnerability>, stored: seq<Vulnerability>)
    ensures Keys(Retained(scanned, stored)) == Keys(stored) * Keys(scanned)
    decreases |stored|
  {
    if stored != [] {
      var init := stored[..|stored| - 1];
      var v := stored[|stored| - 1];
      RetainedKeys(scanned, init);
      KeysAppend(Retained(scanned, init), if Key(v) in Keys(scanned) then [v] else []);
    }
  }

  lemma {:induction false} RetainedAppend(scanned: seq<Vulnerability>, a: seq<Vulnerability>, b: seq<Vulnerability>)
    ensures Retained(scanned, a + b) == Retained(scanned, a) + Retained(scanned, b)
    decreases |b|
  {
    if b == [] {
      assert a + b == a;
    } else {
      assert (a + b)[..|a + b| - 1] == a + b[..|b| - 1];
      RetainedAppend(scanned, a, b[..|b| - 1]);
    }
  }

  /** Pruning keeps a list all of whose findings are still reported. */
  lemma {:induction false} RetainedAllReported(scanned: seq<Vulnerability>, stored: seq<Vulnerability>)
    requires forall v :: v in stored ==> Key(v) in Keys(scanned)
    ensures Retained(scanned, stored) == stored
    decreases |stored|
  {
    if stored != [] {
      RetainedAllReported(scanned, stored[..|stored| - 1]);
    }
  }

  /**
   * `removeFalsePositives(vulnerabilities, oldList)`: a new list of the
   * stored findings, in their order, whose identity the fresh scan still
   * reports; neither argument is changed.
   */
  method RemoveFalsePositives(vulnerabilities: seq<Vulnerability>, oldList: seq<Vulnerability>)
    returns (newList: seq<Vulnerability>)
    ensures newList == Retained(vulnerabilities, oldList)
    ensures Subsequence(newList, oldList)
    ensures forall v :: v in newList <==> v in oldList && Key(v) in Keys(vulnerabilities)
  {
    newList := [];
    for counter := 0 to |oldList|
      invariant newList == Retained(vulnerabilities, oldList[..counter])
    {
      var v := oldList[counter];
      assert oldList[..counter + 1][..counter] == oldList[..counter];
      var reported := CheckExistenceOfVulnerability(vulnerabilities, v);
      if reported {
        newList := newList + [v];
      }
    }
    assert oldList[..|oldList|] == oldList;
    RetainedIsSubsequence(vulnerabilities, oldList);
    RetainedMembers(vulnerabilities, oldList);
  }

  // ---------------------------------------------------------------------
  // One reconciliation cycle

  /**
   * Adding the new findings and then pruning with the same fresh scan
   * leaves the stored findings still reported, unchanged and in their
   * order, followed by the new ones; the identities held are then exactly
   * those of the fresh scan.
   */
  lemma CycleConverges(base: seq<Vulnerability>, scanned: seq<Vulnerability>)
    ensures Retained(scanned, Merged(base, scanned)) == Retained(scanned, base) + Novel(base, scanned)
    ensures Keys(Retained(scanned, Merged(base, scanned))) == Keys(scanned)
    ensures forall v :: v in base && Key(v) in Keys(scanned) ==> v in Retained(scanned, Merged(base, scanned))
  {
    var n := Novel(base, scanned);
    MergedIsBasePlusNovel(base, scanned);
    RetainedAppend(scanned, base, n);
    NovelKeys(base, scanned);
    forall v | v in n ensures Key(v) in Keys(scanned) {
      KeyOfMember(n, v);
    }
    RetainedAllReported(scanned, n);
    RetainedMembers(scanned, base);
    RetainedKeys(scanned, base);
    KeysAppend(Retained(scanned, base), n);
  }

  /**
   * A stored finding whose state changed upstream is not overwritten: the
   * merge leaves the stored list as it was.
   */
  lemma FirstWriteWinsExample()
    ensures var stored := Vulnerability("SNYK-1", "lodash@4.17.20", Some(NewState), map[]);
            var rescanned := Vulnerability("SNYK-1", "lodash@4.17.20", Some("resolved"), map[]);
            Merged([stored], [rescanned]) == [stored]
  {
    var stored := Vulnerability("SNYK-1", "lodash@4.17.20", Some(NewState), map[]);
    var rescanned := Vulnerability("SNYK-1", "lodash@4.17.20", Some("resolved"), map[]);
    assert Keys([rescanned]) == {Key(rescanned)};
    assert Keys([stored]) == {Key(stored)};
    MergedNothingNew([stored], [rescanned]);
  }

  /**
   * With `a` and `b` stored and `b` (re-reported with another state) and
   * `c` scanned, a cycle drops `a`, keeps the stored `b` and adds `c`.
   */
  lemma CycleExample(a: Vulnerability, b: Vulnerability, b': Vulnerability, c: Vulnerability)
    requires Key(b') == Key(b)
    requires Key(a) != Key(b) && Key(a) != Key(c) && Key(b) != Key(c)
    ensures Retained([b', c], Merged([a, b], [b', c])) == [b, c]
  {
    var base, scanned := [a, b], [b', c];
    KeysOfPair(a, b);
    KeysOfPair(b', c);
    CycleConverges(base, scanned);
    assert base[..1] == [a] && [a][..0] == [];
    assert Retained(scanned, [a]) == [];
    assert Retained(scanned, base) == [b];
    assert scanned[..1] == [b'] && [b'][..0] == [];
    assert Keys([b']) == {Key(b)};
    assert Novel(base, [b']) == [];
    assert Novel(base, scanned) == [c];
  }

  lemma KeysOfPair(x: Vulnerability, y: Vulnerability)
    ensures Keys([x, y]) == {Key(x), Key(y)}
  {
    assert [x, y][..1] == [x];
    assert [x][..0] == [];
    assert Keys([x]) == {} + {Key(x)};
    assert Keys([x, y]) == Keys([x]) + {Key(y)};
  }
}
