/** The mesh selection rule of the GLBModel effect: target names and mesh
    names are lower-cased, and a mesh is selected when "change all meshes"
    is set or when some lowered target occurs as a substring of its lowered
    name. Everything here is pure: lower-casing, `some` and `includes`. */
module Matching {

  datatype Option<T> = None | Some(value: T)

  /** ASCII lower-casing of one character; every other character is kept. */
  function LowerChar(c: char): (r: char)
    ensures !('A' <= r <= 'Z')
    ensures r == c || 'A' <= c <= 'Z'
    ensures 'A' <= c <= 'Z' ==> r as int == c as int + 32
  {
    if 'A' <= c <= 'Z' then (c as int + 32) as char else c
  }

  /** `s.toLowerCase()`, restricted to ASCII letters. */
  function Lower(s: string): (r: string)
    ensures |r| == |s|
    ensures forall i :: 0 <= i < |s| ==> r[i] == LowerChar(s[i])
  {
    if s == [] then [] else [LowerChar(s[0])] + Lower(s[1..])
  }

  /** `targetMeshes.map((t) => t.toLowerCase())`: the element-wise lower-casing
      of the targets, with the same length and order. */
  function LowerTargets(targets: seq<string>): (r: seq<string>)
    ensures |r| == |targets|
    ensures forall i :: 0 <= i < |targets| ==> r[i] == Lower(targets[i])
  {
    if targets == [] then [] else [Lower(targets[0])] + LowerTargets(targets[1..])
  }

  /** `t` occurs in `s` starting at position `p`. */
  predicate OccursAt(s: string, t: string, p: nat) {
    p + |t| <= |s| && s[p..p + |t|] == t
  }

  /** `s.includes(t)`: whether `t` occurs in `s` at some position. The empty
      string occurs in every string. */
  function Includes(s: string, t: string): (r: bool)
    ensures r <==> exists p: nat :: OccursAt(s, t, p)
    decreases |s|
  {
    if |t| > |s| then false
    else if s[..|t|] == t then
      assert OccursAt(s, t, 0);
      true
    else
      assert forall p: nat :: OccursAt(s[1..], t, p) <==> OccursAt(s, t, p + 1);
      assert !OccursAt(s, t, 0);
      assert forall p: nat :: OccursAt(s, t, p) ==> p > 0 && OccursAt(s[1..], t, p - 1);
      Includes(s[1..], t)
  }

  /** `targets.some((t) => name.includes(t))`. */
  function AnyIncludes(targets: seq<string>, name: string): (r: bool)
    ensures r <==> exists k :: 0 <= k < |targets| && Includes(name, targets[k])
  {
    if targets == [] then false
    else Includes(name, targets[0]) || AnyIncludes(targets[1..], name)
  }

  /** `mesh.name || ""`: a missing name reads as the empty string. */
  function NameOrEmpty(name: Option<string>): string {
    match name
    case Some(s) => s
    case None => ""
  }

  /** The selection test of the traversal: a mesh is selected when some
      lowered target occurs in its lowered name, or when every mesh is to be
      changed. */
  predicate Selected(lowerTargets: seq<string>, changeAll: bool, name: Option<string>) {
    AnyIncludes(lowerTargets, Lower(NameOrEmpty(name))) || changeAll
  }

  /** Lower-casing twice is lower-casing once. */
  lemma {:induction false} LowerIdempotent(s: string)
    ensures Lower(Lower(s)) == Lower(s)
  {
    if s != [] {
      LowerIdempotent(s[1..]);
      assert Lower(s) == [LowerChar(s[0])] + Lower(s[1..]);
    }
  }

  /** Lower-casing commutes with taking a slice. */
  lemma LowerSlice(s: string, p: nat, q: nat)
    requires p <= q <= |s|
    ensures Lower(s)[p..q] == Lower(s[p..q])
  {
    var a, b := Lower(s)[p..q], Lower(s[p..q]);
    forall i | 0 <= i < q - p
      ensures a[i] == b[i]
    {
      LowerSliceAt(s, p, q, i);
    }
  }

  /** One position of `LowerSlice`. */
  lemma LowerSliceAt(s: string, p: nat, q: nat, i: nat)
    requires p + i < q <= |s|
    ensures Lower(s)[p + i] == Lower(s[p..q])[i]
  {
    assert s[p..q][i] == s[p + i];
  }

  /** `target` equals, ignoring case, the part of `name` starting at `p`. */
  predicate MatchesAt(name: string, target: string, p: nat) {
    p + |target| <= |name| && Lower(name[p..p + |target|]) == Lower(target)
  }

  /** Some lowered target occurs in the lowered name exactly when some
      target matches the name, ignoring case, at some position. */
  lemma {:induction false} AnyIncludesIff(targets: seq<string>, s: string)
    ensures AnyIncludes(LowerTargets(targets), Lower(s)) <==>
      exists k: nat, p: nat :: k < |targets| && MatchesAt(s, targets[k], p)
  {
    var lt := LowerTargets(targets);
    if AnyIncludes(lt, Lower(s)) {
      var k :| 0 <= k < |lt| && Includes(Lower(s), lt[k]);
      var p: nat :| OccursAt(Lower(s), lt[k], p);
      IncludedMatches(s, targets[k], p);
    }
    if exists k: nat, p: nat :: k < |targets| && MatchesAt(s, targets[k], p) {
      var k: nat, p: nat :| k < |targets| && MatchesAt(s, targets[k], p);
      IncludedMatches(s, targets[k], p);
      assert Includes(Lower(s), lt[k]);
    }
  }

  /** The lowered target occurs at `p` in the lowered name exactly when the
      target matches the name at `p`, ignoring case. */
  lemma IncludedMatches(s: string, t: string, p: nat)
    ensures OccursAt(Lower(s), Lower(t), p) <==> MatchesAt(s, t, p)
  {
    if p + |t| <= |s| {
      LowerSlice(s, p, p + |t|);
    }
  }

  /** The selection rule stated without `some`, `includes` or the lowered
      target list: a mesh is selected exactly when every mesh is to be
      changed, or some target equals, ignoring case, a contiguous part of
      the mesh's name (a missing name being empty). */
  lemma SelectedIff(targets: seq<string>, changeAll: bool, name: Option<string>)
    ensures Selected(LowerTargets(targets), changeAll, name) <==>
      changeAll ||
      exists k: nat, p: nat :: k < |targets| && MatchesAt(NameOrEmpty(name), targets[k], p)
  {
    AnyIncludesIff(targets, NameOrEmpty(name));
  }

  /** Matching ignores the case of the mesh name. */
  lemma SelectionIgnoresCase(targets: seq<string>, changeAll: bool, name: string)
    ensures Selected(LowerTargets(targets), changeAll, Some(name)) ==
            Selected(LowerTargets(targets), changeAll, Some(Lower(name)))
  {
    LowerIdempotent(name);
  }

  /** An empty target occurs in every name, so it selects every mesh. */
  lemma EmptyTargetSelectsAll(targets: seq<string>, changeAll: bool, name: Option<string>)
    requires "" in targets
    ensures Selected(LowerTargets(targets), changeAll, name)
  {
    var k :| 0 <= k < |targets| && targets[k] == "";
    assert OccursAt(Lower(NameOrEmpty(name)), LowerTargets(targets)[k], 0);
  }

  /** With no targets and "change all" off, no mesh is selected. */
  lemma NoTargetsSelectNothing(changeAll: bool, name: Option<string>)
    ensures Selected(LowerTargets([]), changeAll, name) <==> changeAll
  {
  }

  /** Lower-casing introduces no character other than a lower-case letter. */
  lemma LowerKeepsAbsent(s: string, c: char)
    requires c !in s && !('a' <= c <= 'z')
    ensures c !in Lower(s)
  {
    forall i | 0 <= i < |s|
      ensures Lower(s)[i] != c
    {
      assert s[i] != c;
    }
  }

  /** A target holding a character that the name does not hold never
      occurs in the name. */
  lemma MissingCharNeverIncluded(s: string, t: string, i: nat)
    requires i < |t| && t[i] !in s
    ensures !Includes(s, t)
  {
    forall p: nat
      ensures !OccursAt(s, t, p)
    {
      if p + |t| <= |s| {
        assert s[p..p + |t|][i] == s[p + i];
      }
    }
  }

  /** Matching is by substring, not by equality: target "Mesh_1" also
      selects a mesh named "mesh_10". */
  lemma SubstringNotExact()
    ensures Selected(LowerTargets(["Mesh_1"]), false, Some("mesh_10"))
  {
    var name, target := "mesh_10", "Mesh_1";
    assert Lower(name[0..6]) == Lower(target) by {
      assert name[0..6] == "mesh_1";
      forall i | 0 <= i < 6
        ensures Lower("mesh_1")[i] == Lower(target)[i]
      {
      }
    }
    assert MatchesAt(name, target, 0);
    SelectedIff([target], false, Some(name));
  }

  /** A mesh named "OtherMesh" is not selected by target "Mesh_1": the
      target's underscore occurs nowhere in the name. */
  lemma UnrelatedNameNotSelected()
    ensures !Selected(LowerTargets(["Mesh_1"]), false, Some("OtherMesh"))
  {
    var name := Lower("OtherMesh");
    LowerKeepsAbsent("OtherMesh", '_');
    var lt := LowerTargets(["Mesh_1"]);
    assert lt[0][4] == '_';
    MissingCharNeverIncluded(name, lt[0], 4);
    assert !AnyIncludes(lt[1..], name);
  }
}
