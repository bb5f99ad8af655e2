/** What a collection refuses, told by what stands in the workspace: which
    entries a successful collection may hold, and what each refusal means. */
module Refusals {
  import opened Seqs
  import opened Glob
  import opened Collection
  import opened Walking

  predicate Named(p: Path) { p != [] && p[|p| - 1].Utf8? }

  predicate IsMatched(d: seq<Declaration>, p: Path) { Matched(d, Shown(p)) != [] }

  /** The object names of the entry fit the bound, and its path can be spelled. */
  ghost predicate Nameable(d: seq<Declaration>, p: Path)
  {
    && (forall i :: 0 <= i < |Text(p)| ==> 0x20 <= Text(p)[i] as int < 0x7F || Text(p)[i] as int > 0x9F)
    && forall name :: name in Matched(d, Shown(p)) ==> Utf8Bytes(name + "/" + Text(p)) <= MAX_ARTIFACT_OBJECT_NAME_BYTES
  }

  /** What a wanted entry must be. */
  ghost predicate Fit(d: seq<Declaration>, t: Tree, p: Path)
    requires p in t
  {
    && Named(p) && !t[p].Link? && !t[p].Unstatable?
    && (t[p].Directory? && Descends(d, Shown(p)) ==> |p| <= MAX_ARTIFACT_WALK_DEPTH && t[p].opening == Opened)
    && (IsMatched(d, p) ==> t[p].Regular? || t[p].Directory?)
    && (IsMatched(d, p) && t[p].Regular? ==> Nameable(d, p))
  }

  lemma NameableExact(d: seq<Declaration>, p: Path)
    ensures Nameable(d, p) <==> !HasControl(Text(p)) && !NameTooLong(Matched(d, Shown(p)), Text(p))
  {
    var names, text := Matched(d, Shown(p)), Text(p);
    hide Matched, Text, Utf8Bytes;
    forall i | 0 <= i < |names| ensures ObjectName(names[i], text) == names[i] + "/" + text && names[i] in names {}
  }

  /** An entry outside the spool offends in no way exactly when it is unwanted or
      fit, and can be looked at. */
  lemma OffenceExact(d: seq<Declaration>, t: Tree, p: Path)
    requires p in t && p != [] && !UnderSpool(p)
    ensures Offence(d, t, p).None? <==> (Wanted(d, p) ==> Fit(d, t, p)) && (Named(p) ==> !t[p].Unstatable?)
  {
    NameableExact(d, p);
    hide Nameable, HasControl, NameTooLong, Matched, Descends, Text;
  }

  lemma VisitedOutsideSpool(d: seq<Declaration>, t: Tree, p: Path)
    requires WellFormed(t) && p in Visited(d, t) && !IsSpool(p)
    ensures !UnderSpool(p)
  {
    if |p| > 1 { SpoolStaysShut(d, t, p); }
  }

  /** Nothing offends exactly when every wanted entry anywhere in the workspace is
      fit and every entry visited under a name can be looked at. */
  lemma NothingOffends(d: seq<Declaration>, t: Tree)
    requires WellFormed(t)
    ensures NoOffender(d, t, Visited(d, t)) <==>
            && (forall p :: p in t && Wanted(d, p) ==> Fit(d, t, p))
            && (forall p :: p in Visited(d, t) && !IsSpool(p) && Named(p) ==> !t[p].Unstatable?)
  {
    hide Wanted, Fit, Offence, Visited;
    forall p | p in Visited(d, t) ensures p in t && p != [] { VisitedInTree(d, t, p); }
    if NoOffender(d, t, Visited(d, t)) {
      forall p | p in t && Wanted(d, p) ensures Fit(d, t, p) {
        WantedOutsideSpool(d, p);
        WantedIsVisited(d, t, p, |p|);
        assert p[..|p|] == p;
        OffenceExact(d, t, p);
      }
      forall p | p in Visited(d, t) && !IsSpool(p) && Named(p) ensures !t[p].Unstatable? {
        VisitedInTree(d, t, p);
        VisitedOutsideSpool(d, t, p);
        OffenceExact(d, t, p);
      }
    }
    if (forall p :: p in t && Wanted(d, p) ==> Fit(d, t, p)) &&
       (forall p :: p in Visited(d, t) && !IsSpool(p) && Named(p) ==> !t[p].Unstatable?) {
      forall p | p in Visited(d, t) ensures p in t && p != [] && Offence(d, t, p).None? {
        VisitedInTree(d, t, p);
        if IsSpool(p) {
          SpoolOffendsNot(d, t, p);
        } else {
          VisitedOutsideSpool(d, t, p);
          OffenceExact(d, t, p);
        }
      }
    }
  }

  lemma VisitedInTree(d: seq<Declaration>, t: Tree, p: Path)
    requires WellFormed(t) && p in Visited(d, t)
    ensures p in t && p != []
  {
  }

  lemma WantedOutsideSpool(d: seq<Declaration>, p: Path)
    requires Wanted(d, p)
    ensures !UnderSpool(p)
  {
  }

  lemma SpoolOffendsNot(d: seq<Declaration>, t: Tree, p: Path)
    requires p in t && p != [] && IsSpool(p)
    ensures Offence(d, t, p).None?
  {
  }

  /** Collection succeeds only where every declared path outside the spool, be it
      visited or not, is a regular file or a directory under a UTF-8 name. */
  lemma MatchedIsFile(d: seq<Declaration>, t: Tree, p: Path)
    requires WellFormed(t) && Collectable(d, t) && p in t && !UnderSpool(p) && Matched(d, Shown(p)) != []
    ensures p[|p| - 1].Utf8? && (t[p].Regular? || t[p].Directory?)
  {
    NothingOffends(d, t);
    assert Wanted(d, p);
  }

  /** And every entry it looks below is neither a link nor a directory that could
      not be opened, was replaced or lies too deep. */
  lemma LookedBelowIsOpen(d: seq<Declaration>, t: Tree, p: Path)
    requires WellFormed(t) && Collectable(d, t) && p in t && !UnderSpool(p) && Descends(d, Shown(p))
    ensures p[|p| - 1].Utf8? && !t[p].Link? && !t[p].Unstatable?
    ensures t[p].Directory? ==> t[p].opening == Opened && |p| <= MAX_ARTIFACT_WALK_DEPTH
  {
    NothingOffends(d, t);
    assert Wanted(d, p);
  }

  /** The entry at `p` is what a refusal of this kind names. */
  ghost predicate Caused(refusal: Refusal, d: seq<Declaration>, t: Tree, p: Path)
    requires p in t && p != []
  {
    var matched, below, found := IsMatched(d, p), Descends(d, Shown(p)), t[p];
    !UnderSpool(p) &&
    match refusal
    case LinkAt(path) => path == Text(p) && Named(p) && found.Link? && (matched || below)
    case NotRegular(path) => path == Text(p) && Named(p) && found.Other? && matched
    case IdentityChanged(path) =>
      path == Text(p) && Named(p) && found == Directory(Replaced) && below && |p| <= MAX_ARTIFACT_WALK_DEPTH
    case TooDeep(path) => path == Text(p) && Named(p) && found.Directory? && below && |p| > MAX_ARTIFACT_WALK_DEPTH
    case Unreadable(path) =>
      && path == Text(p) && Named(p)
      && (found.Unstatable? || (found == Directory(OpenFailed) && below && |p| <= MAX_ARTIFACT_WALK_DEPTH))
    case Unnameable(path) =>
      && path == Text(p)
      && ((!Named(p) && (matched || below)) || (Named(p) && found.Regular? && matched && HasControl(path)))
    case TooLong(path) =>
      && path == Text(p) && Named(p) && found.Regular? && matched && !HasControl(path)
      && exists name :: name in Matched(d, Shown(p)) && Utf8Bytes(name + "/" + path) > MAX_ARTIFACT_OBJECT_NAME_BYTES
    case _ => false
  }

  lemma OffenceMeans(refusal: Refusal, d: seq<Declaration>, t: Tree, p: Path)
    requires p in t && p != [] && !UnderSpool(p)
    ensures Offence(d, t, p) == Some(refusal) <==> Caused(refusal, d, t, p)
  {
    var names, text := Matched(d, Shown(p)), Text(p);
    hide Matched, Text, Utf8Bytes, HasControl, Descends;
    forall i | 0 <= i < |names| ensures ObjectName(names[i], text) == names[i] + "/" + text && names[i] in names {}
  }

  /** A refusal that names a path is justified exactly by a visited entry that is
      what the refusal says. */
  lemma RefusalMeans(refusal: Refusal, d: seq<Declaration>, t: Tree)
    requires WellFormed(t)
    requires !refusal.MatchingBudgetSpent? && !refusal.TooManyEntries? && !refusal.TooManyFiles? && !refusal.TooManyBytes?
    ensures Justified(refusal, d, t) <==> exists p :: p in Visited(d, t) && p in t && p != [] && Caused(refusal, d, t, p)
  {
    hide Caused, Offence, Visited;
    forall p | p in Visited(d, t)
      ensures p in t && p != [] && (Offence(d, t, p) == Some(refusal) <==> Caused(refusal, d, t, p))
    {
      VisitedInTree(d, t, p);
      if IsSpool(p) {
        SpoolOffendsNot(d, t, p);
        SpoolCausesNothing(refusal, d, t, p);
      } else {
        VisitedOutsideSpool(d, t, p);
        OffenceMeans(refusal, d, t, p);
      }
    }
  }

  lemma SpoolCausesNothing(refusal: Refusal, d: seq<Declaration>, t: Tree, p: Path)
    requires p in t && p != [] && IsSpool(p)
    ensures !Caused(refusal, d, t, p)
  {
  }
}
