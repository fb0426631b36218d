/** `frontend/src/components/to-do/Controller.tsx`: the list of deadlines
    built during render, the grouping of top-level items under their
    deadline with their children attached, and the snapshot-gated
    `setToDos` of `handleRetrieve`. */
module ToDoController {
  import opened Wrappers
  import Snapshot

  datatype Styles = Styles(isBold: bool, isItalic: bool)

  /** A task as the client holds it; `parent` is the title of the item it
      hangs under, or `""` for a top-level item. */
  datatype ToDo = ToDo(
    email: string,
    title: string,
    deadline: string,
    parent: string,
    isCompleted: bool,
    styles: Styles)

  /** The one blank record the component state starts with. */
  const Placeholder: ToDo := ToDo("", "", "", "", false, Styles(false, false))

  predicate NoDuplicates(xs: seq<string>)
  {
    forall i, j :: 0 <= i < j < |xs| ==> xs[i] != xs[j]
  }

  /** Some to-do has deadline `d`. */
  predicate HasDeadline(toDos: seq<ToDo>, d: string)
  {
    exists i :: 0 <= i < |toDos| && toDos[i].deadline == d
  }

  /** Index of the first to-do with deadline `d`. */
  function FirstWith(toDos: seq<ToDo>, d: string): (i: nat)
    requires HasDeadline(toDos, d)
    ensures i < |toDos| && toDos[i].deadline == d
    ensures forall j :: 0 <= j < i ==> toDos[j].deadline != d
  {
    if toDos[0].deadline == d then 0
    else
      assert HasDeadline(toDos[1..], d) by {
        var k :| 0 <= k < |toDos| && toDos[k].deadline == d;
        assert toDos[1..][k - 1].deadline == d;
      }
      1 + FirstWith(toDos[1..], d)
  }

  /** The deadlines of the to-dos, each once: the list the render loop
      builds, specified over the to-dos seen so far. */
  function DistinctDeadlines(toDos: seq<ToDo>): (ds: seq<string>)
    ensures NoDuplicates(ds)
    ensures forall d :: d in ds <==> HasDeadline(toDos, d)
  {
    if |toDos| == 0 then []
    else
      var prev := DistinctDeadlines(toDos[..|toDos| - 1]);
      var d := toDos[|toDos| - 1].deadline;
      assert forall e :: HasDeadline(toDos, e) <==> HasDeadline(toDos[..|toDos| - 1], e) || e == d by {
        forall e | HasDeadline(toDos, e)
          ensures HasDeadline(toDos[..|toDos| - 1], e) || e == d
        {
          var k :| 0 <= k < |toDos| && toDos[k].deadline == e;
          if k < |toDos| - 1 {
            assert toDos[..|toDos| - 1][k].deadline == e;
          }
        }
      }
      if d in prev then prev else prev + [d]
  }

  /** A deadline first seen at a given position keeps that position when
      more to-dos follow. */
  lemma FirstWithPrefix(toDos: seq<ToDo>, n: nat, d: string)
    requires n <= |toDos|
    requires HasDeadline(toDos[..n], d)
    ensures HasDeadline(toDos, d)
    ensures FirstWith(toDos, d) == FirstWith(toDos[..n], d)
  {
  }

  /** The deadlines stand in the order of their first appearance among the
      to-dos. */
  lemma {:induction false} DeadlinesInFirstAppearanceOrder(toDos: seq<ToDo>)
    ensures forall i, j :: 0 <= i < j < |DistinctDeadlines(toDos)| ==>
      FirstWith(toDos, DistinctDeadlines(toDos)[i]) < FirstWith(toDos, DistinctDeadlines(toDos)[j])
  {
    if |toDos| > 0 {
      var n := |toDos| - 1;
      var p := toDos[..n];
      DeadlinesInFirstAppearanceOrder(p);
      var prev := DistinctDeadlines(p);
      var d := toDos[n].deadline;
      var ds := DistinctDeadlines(toDos);
      forall k | 0 <= k < |prev|
        ensures FirstWith(toDos, prev[k]) == FirstWith(p, prev[k]) < n
      {
        FirstWithPrefix(toDos, n, prev[k]);
      }
      if d in prev {
        assert ds == prev;
      } else {
        assert ds == prev + [d];
        assert FirstWith(toDos, d) == n by {
          assert !HasDeadline(p, d);
        }
        forall i, j | 0 <= i < j < |ds|
          ensures FirstWith(toDos, ds[i]) < FirstWith(toDos, ds[j])
        {
          assert ds[i] == prev[i];
          if j < |prev| {
            assert ds[j] == prev[j];
          } else {
            assert ds[j] == d;
          }
        }
      }
    }
  }

  /** The render-time loop: `deadlines` starts empty and each to-do's
      deadline is pushed unless already present. */
  method Deadlines(toDos: seq<ToDo>) returns (deadlines: seq<string>)
    ensures deadlines == DistinctDeadlines(toDos)
  {
    deadlines := [];
    for i := 0 to |toDos|
      invariant deadlines == DistinctDeadlines(toDos[..i])
    {
      assert toDos[..i + 1][..i] == toDos[..i];
      if toDos[i].deadline !in deadlines {
        deadlines := deadlines + [toDos[i].deadline];
      }
    }
    assert toDos[..|toDos|] == toDos;
  }

  /** The two selections the render makes from the whole list. */
  datatype Selector =
    | ChildrenOf(title: string)   // `childObject.parent !== '' && childObject.parent === object.title`
    | TopLevelOn(deadline: string) // `object.deadline === deadline && object.parent === ''`

  /** A kept child always has a parent and a kept top-level item never
      does, so no item is both; an item titled `""` has no children. */
  predicate Keeps(s: Selector, t: ToDo)
    ensures Keeps(s, t) ==> (s.ChildrenOf? <==> t.parent != "")
    ensures s == ChildrenOf("") ==> !Keeps(s, t)
  {
    match s
    case ChildrenOf(title) => t.parent != "" && t.parent == title
    case TopLevelOn(d) => t.deadline == d && t.parent == ""
  }

  /** The to-dos a selector keeps, in list order (`filter`). */
  function Select(toDos: seq<ToDo>, s: Selector): (r: seq<ToDo>)
    ensures |r| <= |toDos|
    ensures forall t :: t in r <==> t in toDos && Keeps(s, t)
  {
    if |toDos| == 0 then []
    else (if Keeps(s, toDos[0]) then [toDos[0]] else []) + Select(toDos[1..], s)
  }

  /** Selecting from a concatenation selects from each part and keeps the
      parts in order: selection preserves list order. */
  lemma {:induction false} SelectConcat(a: seq<ToDo>, b: seq<ToDo>, s: Selector)
    ensures Select(a + b, s) == Select(a, s) + Select(b, s)
  {
    if |a| == 0 {
      assert a + b == b;
    } else {
      assert (a + b)[1..] == a[1..] + b;
      SelectConcat(a[1..], b, s);
    }
  }

  /** Every kept to-do is selected as many times as it occurs, every other
      to-do not at all. */
  lemma {:induction false} SelectCount(toDos: seq<ToDo>, s: Selector, t: ToDo)
    ensures multiset(Select(toDos, s))[t] == if Keeps(s, t) then multiset(toDos)[t] else 0
  {
    if |toDos| > 0 {
      SelectCount(toDos[1..], s, t);
      assert toDos == [toDos[0]] + toDos[1..];
    }
  }

  /** A top-level item drawn with the items that hang under it. */
  datatype Entry = Entry(item: ToDo, children: seq<ToDo>)

  /** The `div` of one deadline: the heading, shown or not, and the
      top-level items of that deadline. */
  datatype Group = Group(deadline: string, heading: bool, entries: seq<Entry>)

  /** `toDos.some(object => object.parent === '' && object.deadline === deadline)` */
  predicate HasTopLevel(toDos: seq<ToDo>, d: string)
    ensures HasTopLevel(toDos, d) <==> Select(toDos, TopLevelOn(d)) != []
  {
    var tops := Select(toDos, TopLevelOn(d));
    assert tops != [] ==> tops[0] in tops;
    assert forall i :: 0 <= i < |toDos| && toDos[i].parent == "" && toDos[i].deadline == d ==>
      Keeps(TopLevelOn(d), toDos[i]) && toDos[i] in tops;
    exists i :: 0 <= i < |toDos| && toDos[i].parent == "" && toDos[i].deadline == d
  }

  /** The `ul`s of one deadline's group: its top-level items, in list
      order, each with the children selected for its title. */
  function EntriesOn(toDos: seq<ToDo>, d: string): (r: seq<Entry>)
    ensures Items(r) == Select(toDos, TopLevelOn(d))
    ensures forall e :: e in r ==>
      e.item.parent == "" && e.item.deadline == d && e.item in toDos
      && e.children == Select(toDos, ChildrenOf(e.item.title))
  {
    var tops := Select(toDos, TopLevelOn(d));
    assert forall i :: 0 <= i < |tops| ==> tops[i] in tops;
    seq(|tops|, i requires 0 <= i < |tops| => Entry(tops[i], Select(toDos, ChildrenOf(tops[i].title))))
  }

  function Items(entries: seq<Entry>): seq<ToDo>
  {
    seq(|entries|, i requires 0 <= i < |entries| => entries[i].item)
  }

  /** The rendered page: one group per deadline, in the order of `deadlines`. */
  function Render(toDos: seq<ToDo>): (gs: seq<Group>)
    ensures |gs| == |DistinctDeadlines(toDos)|
    ensures forall k :: 0 <= k < |gs| ==> gs[k].deadline == DistinctDeadlines(toDos)[k]
  {
    var ds := DistinctDeadlines(toDos);
    seq(|ds|, k requires 0 <= k < |ds| => Group(ds[k], HasTopLevel(toDos, ds[k]), EntriesOn(toDos, ds[k])))
  }

  /** The top-level items drawn in a deadline's group are exactly the
      top-level items of that deadline, in list order. */
  lemma GroupItems(toDos: seq<ToDo>, k: nat)
    requires k < |Render(toDos)|
    ensures Items(Render(toDos)[k].entries) == Select(toDos, TopLevelOn(Render(toDos)[k].deadline))
  {
  }

  /** A deadline's heading is shown iff some top-level item has that
      deadline, which is iff its group draws at least one item. */
  lemma HeadingShownIffTopLevel(toDos: seq<ToDo>, k: nat)
    requires k < |Render(toDos)|
    ensures var g := Render(toDos)[k];
      (g.heading <==> exists t :: t in toDos && t.parent == "" && t.deadline == g.deadline)
      && (g.heading <==> |g.entries| > 0)
  {
  }

  /** Exactly one group carries the deadline of a given to-do. */
  lemma OneGroupPerDeadline(toDos: seq<ToDo>, t: ToDo)
    requires t in toDos
    ensures var gs := Render(toDos);
      (exists k :: 0 <= k < |gs| && gs[k].deadline == t.deadline)
      && (forall k, l :: 0 <= k < l < |gs| ==> gs[k].deadline != gs[l].deadline)
  {
    var ds := DistinctDeadlines(toDos);
    var i :| 0 <= i < |toDos| && toDos[i] == t;
    assert HasDeadline(toDos, t.deadline);
    var k :| 0 <= k < |ds| && ds[k] == t.deadline;
    assert Render(toDos)[k].deadline == t.deadline;
  }

  /** A top-level item is drawn in the group of its own deadline as many
      times as it occurs in the list, and in no other group. With
      `OneGroupPerDeadline`, each occurrence is drawn exactly once. */
  lemma TopLevelRenderedOnce(toDos: seq<ToDo>, t: ToDo, k: nat)
    requires t.parent == "" && k < |Render(toDos)|
    ensures var g := Render(toDos)[k];
      multiset(Items(g.entries))[t] == if g.deadline == t.deadline then multiset(toDos)[t] else 0
  {
    GroupItems(toDos, k);
    SelectCount(toDos, TopLevelOn(Render(toDos)[k].deadline), t);
  }

  /** No item with a non-empty `parent` is drawn at top level. */
  lemma NestedNeverTopLevel(toDos: seq<ToDo>, k: nat, i: nat)
    requires k < |Render(toDos)| && i < |Render(toDos)[k].entries|
    ensures var e := Render(toDos)[k].entries[i];
      e.item.parent == "" && e.item.deadline == Render(toDos)[k].deadline && e.item in toDos
  {
  }

  /** The children of a drawn item are exactly the items whose non-empty
      `parent` is its title, in list order, each as often as it occurs,
      whatever their deadline. */
  lemma ChildrenExactly(toDos: seq<ToDo>, k: nat, i: nat, c: ToDo)
    requires k < |Render(toDos)| && i < |Render(toDos)[k].entries|
    ensures var e := Render(toDos)[k].entries[i];
      e.children == Select(toDos, ChildrenOf(e.item.title))
      && multiset(e.children)[c] ==
           if c.parent != "" && c.parent == e.item.title then multiset(toDos)[c] else 0
  {
    var e := Render(toDos)[k].entries[i];
    SelectCount(toDos, ChildrenOf(e.item.title), c);
  }

  /** The component's state. */
  class Controller {
    var toDos: seq<ToDo>

    constructor ()
      ensures toDos == [Placeholder]
    {
      toDos := [Placeholder];
    }

    /** `handleRetrieve` once the response has arrived: `setToDos` is called
        only when `dues` is present and not deep-equal to the current list. */
    method HandleRetrieve(dues: Option<seq<ToDo>>) returns (replaced: bool)
      modifies this
      ensures replaced == Snapshot.Replaces(old(toDos), dues)
      ensures toDos == Snapshot.Apply(old(toDos), dues)
    {
      replaced := dues.Some? && dues.value != toDos;
      if replaced {
        toDos := dues.value;
      }
    }
  }
}
