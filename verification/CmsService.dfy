/** Deleting content: moving it to a trash, or deleting it with all references into it. */
module CmsService {
  import opened Sequences
  import opened Chains
  import opened Forests
  import opened Runs
  import opened Guards
  import opened Deletion
  import opened Emptyings
  import opened Trashes
  import opened CmfDomain
  import opened CmfService

  class Contents {
    const nodes: Nodes
    const users: seq<seq<Node>>  // the roots of each user

    constructor (nodes: Nodes, users: seq<seq<Node>>)
      ensures this.nodes == nodes && this.users == users
    {
      this.nodes, this.users := nodes, users;
    }

    ghost predicate UsersKnown()
      reads this, nodes, nodes.space`nodes
    {
      forall i, j | 0 <= i < |users| && 0 <= j < |users[i]| :: users[i][j] in nodes.space.nodes
    }

    ghost predicate Valid()
      reads this, nodes, nodes.space, nodes.space.nodes
    {
      nodes.Valid() && UsersKnown()
    }

    /** All stored references, in no particular order. */
    method QueryReferences() returns (references: seq<Node>)
      ensures forall r | r in references :: r in nodes.stored && r.kind == Reference
      ensures forall r | r in nodes.stored && r.kind == Reference :: r in references
    {
      references := [];
      var todo := nodes.stored.Keys;
      while todo != {}
        invariant todo <= nodes.stored.Keys
        invariant forall r | r in references :: r in nodes.stored && r.kind == Reference
        invariant forall r | r in nodes.stored && r.kind == Reference :: r in references || r in todo
      {
        var r :| r in todo;
        todo := todo - {r};
        if r.kind == Reference {
          references := references + [r];
        }
      }
    }

    /** `isDescendant` for one possible parent. */
    method IsInside(node: Node, content: Node) returns (inside: bool)
      requires nodes.Valid() && node in nodes.space.nodes
      ensures inside <==> Under<Node>(nodes.space.Tree().parent, node, content)
    {
      inside := node.IsDescendant(nodes.space, [content]);
      assert content in [content];
    }

    /** No user root is the content or below it. */
    method IsDeletable(content: Node) returns (r: bool)
      requires Valid() && content in nodes.space.nodes
      ensures r <==> Deletable(nodes.space.Tree(), users, content)
    {
      ghost var up: map<Node, Option<Node>> := nodes.space.Tree().parent;
      for i := 0 to |users|
        invariant forall k: nat, l: nat | k < i && l < |users[k]| :: !Under(up, users[k][l], content)
      {
        for j := 0 to |users[i]|
          invariant forall l: nat | l < j :: !Under(up, users[i][l], content)
        {
          var inside := IsInside(users[i][j], content);
          if inside {
            return false;
          }
        }
      }
      return true;
    }

    /** The state of all objects: the world, the root, and what the references refer to. */
    ghost function Now(): (World<Node>, Node, map<Node, Option<Node>>)
      reads this, nodes, nodes.space, nodes.space.nodes
    {
      (nodes.World(), nodes.root, nodes.space.Targets())
    }

    /** The objects are in the state `w`, and refer to what `p` says they refer to. */
    ghost predicate At(p: Cascade<Node>, w: World<Node>)
      reads this, nodes, nodes.space, nodes.space.nodes
    {
      Now() == (w, p.root, p.targets)
    }

    /** The query in a known state, which stays. */
    method QueryAt(ghost p: Cascade<Node>, ghost w: World<Node>) returns (references: seq<Node>)
      requires At(p, w)
      ensures At(p, w) && Answered(w, references)
    {
      references := QueryReferences();
      forall r | r in w.kinds ensures w.kinds[r] == r.kind {
        assert w == nodes.World();
      }
      assert w.stored == nodes.stored;
    }

    /** The snapshot of the query holds every link that is not gone. */
    method QueryLinks(ghost p: Cascade<Node>, ghost w: World<Node>, ghost gone: set<Node>)
      returns (references: seq<Node>)
      requires At(p, w) && Midway(p, w, gone)
      ensures Snapshot(p, references, gone) && At(p, w)
    {
      references := QueryAt(p, w);
      MidwaySnapshot(p, w, gone, references);
    }

    /** `Nodes.delete` leaves alone what the nodes refer to. */
    method DeleteNode(n: Node, ghost p: Cascade<Node>, ghost w: World<Node>) returns (ghost v: World<Node>)
      requires At(p, w) && n in nodes.space.nodes && Typed(w) && p.root in w.ids && n in w.ids
      modifies nodes`stored, nodes`nodesByPath
      modifies nodes.space`changed, nodes.space.nodes`parent, nodes.space.nodes`children
      ensures v == Step(w, p.root, Op.Delete(n)) && At(p, v)
    {
      nodes.Delete(n);
      v := Step(w, p.root, Op.Delete(n));
    }

    /** Deletes every reference into the subtree of `content`, each after the references into its
        own subtree. The tree and the database change while the list from the query is walked. */
    method DeleteReferences(content: Node, ghost p: Cascade<Node>, ghost w: World<Node>, ghost start: set<Node>)
      returns (ghost v: World<Node>, ghost gone: set<Node>)
      requires At(p, w) && Midway(p, w, start) && Ending(p, content)
      modifies nodes`stored, nodes`nodesByPath
      modifies nodes.space`changed, nodes.space.nodes`parent, nodes.space.nodes`children
      ensures At(p, v) && Midway(p, v, gone)
      ensures Within(p, start, content, gone) && Unreferenced(p, content, gone)
      decreases Nesting(p, content), 1, 2
    {
      var references := QueryLinks(p, w, start);
      SweptNone(p, start, content, references);
      v, gone := DeleteEach(content, references, p, w, start);
      SweptAll(p, start, content, references, gone);
    }

    /** The loop over the list from the query. */
    method DeleteEach(content: Node, references: seq<Node>, ghost p: Cascade<Node>, ghost w: World<Node>,
                      ghost start: set<Node>)
      returns (ghost v: World<Node>, ghost gone: set<Node>)
      requires At(p, w) && Ending(p, content) && Sweeping(p, start, content, references, 0, w, start)
      modifies nodes`stored, nodes`nodesByPath
      modifies nodes.space`changed, nodes.space.nodes`parent, nodes.space.nodes`children
      ensures At(p, v) && Sweeping(p, start, content, references, |references|, v, gone)
      decreases Nesting(p, content), 1, 1
    {
      v, gone := w, start;
      for i := 0 to |references|
        invariant At(p, v) && Sweeping(p, start, content, references, i, v, gone)
      {
        v, gone := NextReference(content, references, i, p, v, gone, start);
      }
    }

    /** One turn of that loop, seen from the loop. */
    method NextReference(content: Node, references: seq<Node>, i: nat, ghost p: Cascade<Node>, ghost w: World<Node>,
                         ghost before: set<Node>, ghost start: set<Node>)
      returns (ghost v: World<Node>, ghost gone: set<Node>)
      requires At(p, w) && Ending(p, content) && i < |references|
      requires Sweeping(p, start, content, references, i, w, before)
      modifies nodes`stored, nodes`nodesByPath
      modifies nodes.space`changed, nodes.space.nodes`parent, nodes.space.nodes`children
      ensures At(p, v) && Sweeping(p, start, content, references, i + 1, v, gone)
      decreases Nesting(p, content), 1, 0
    {
      v, gone := DeleteReference(references[i], content, p, w, before);
      SweptNext(p, start, content, references, i, before, gone);
    }

    /** The condition in that loop. */
    method PointsInto(reference: Node, content: Node, ghost p: Cascade<Node>, ghost w: World<Node>)
      returns (inside: bool)
      requires nodes.Valid() && At(p, w) && reference in nodes.space.nodes
      requires reference.target != null ==> reference.target in nodes.space.nodes
      ensures WellFormed(w.tree) && (inside <==> Inside(p, w, reference, content)) && At(p, w)
    {
      assert p.targets == nodes.space.Targets() && w.tree == nodes.space.Tree();
      assert p.targets[reference] == if reference.target == null then None else Some(reference.target);
      if reference.target == null {
        return false;
      }
      inside := IsInside(reference.target, content);
    }

    /** What the condition amounts to. */
    method IsDue(reference: Node, content: Node, ghost p: Cascade<Node>, ghost w: World<Node>, ghost gone: set<Node>)
      returns (inside: bool)
      requires At(p, w) && Midway(p, w, gone) && content in p.f.kids && Referring(p, reference)
      ensures inside ==> Points(p, content, reference)
      ensures !inside ==> Settled(p, content, reference, gone)
      ensures At(p, w)
    {
      MidwayInside(p, w, gone, reference, content);
      inside := PointsInto(reference, content, p, w);
    }

    /** One turn of that loop. */
    method DeleteReference(reference: Node, content: Node, ghost p: Cascade<Node>, ghost w: World<Node>,
                           ghost start: set<Node>)
      returns (ghost v: World<Node>, ghost gone: set<Node>)
      requires At(p, w) && Midway(p, w, start) && Ending(p, content) && Referring(p, reference)
      modifies nodes`stored, nodes`nodesByPath
      modifies nodes.space`changed, nodes.space.nodes`parent, nodes.space.nodes`children
      ensures At(p, v) && Midway(p, v, gone)
      ensures Within(p, start, content, gone) && Settled(p, content, reference, gone)
      decreases Nesting(p, content), 0, 1
    {
      v, gone := w, start;
      WithinStart(p, start, content);
      var inside := IsDue(reference, content, p, w, start);
      if inside {
        v, gone := DeletePointer(reference, content, p, w, start);
      }
    }

    method DeletePointer(reference: Node, content: Node, ghost p: Cascade<Node>, ghost w: World<Node>,
                         ghost start: set<Node>)
      returns (ghost v: World<Node>, ghost gone: set<Node>)
      requires At(p, w) && Midway(p, w, start) && Ending(p, content) && Points(p, content, reference)
      modifies nodes`stored, nodes`nodesByPath
      modifies nodes.space`changed, nodes.space.nodes`parent, nodes.space.nodes`children
      ensures At(p, v) && Midway(p, v, gone)
      ensures Within(p, start, content, gone) && Settled(p, content, reference, gone)
      decreases Nesting(p, content), 0, 0
    {
      PointsLower(p, content, reference);
      v, gone := DeleteDirect(reference, p, w, start);
      WithinReference(p, start, content, reference);
    }

    /** Deletes the content after the references into it. */
    method DeleteDirect(content: Node, ghost p: Cascade<Node>, ghost w: World<Node>, ghost start: set<Node>)
      returns (ghost v: World<Node>, ghost gone: set<Node>)
      requires At(p, w) && Midway(p, w, start) && Ending(p, content) && content != p.root
      modifies nodes`stored, nodes`nodesByPath
      modifies nodes.space`changed, nodes.space.nodes`parent, nodes.space.nodes`children
      ensures At(p, v) && Midway(p, v, gone)
      ensures gone == Closure(p.f, Links(p), start + Subtree(p.f.parent, content))
      decreases Nesting(p, content), 2
    {
      v, gone := DeleteReferences(content, p, w, start);
      v, gone := DeleteUnreferenced(content, p, v, start, gone);
    }

    /** The second half, once no reference into the subtree is left. */
    method DeleteUnreferenced(content: Node, ghost p: Cascade<Node>, ghost w: World<Node>, ghost start: set<Node>,
                              ghost before: set<Node>)
      returns (ghost v: World<Node>, ghost gone: set<Node>)
      requires At(p, w) && Midway(p, w, before) && content in p.f.kids && content != p.root
      requires Within(p, start, content, before) && Unreferenced(p, content, before)
      modifies nodes`stored, nodes`nodesByPath
      modifies nodes.space`changed, nodes.space.nodes`parent, nodes.space.nodes`children
      ensures At(p, v) && Midway(p, v, gone)
      ensures gone == Closure(p.f, Links(p), start + Subtree(p.f.parent, content))
    {
      MidwayDelete(p, w, before, content);
      v := DeleteNode(content, p, w);
      DeletedIsClosure(p, start, content, before);
      gone := before + Subtree(p.f.parent, content);
    }

    lemma ValidMidway(p: Cascade<Node>, w: World<Node>, gone: set<Node>)
      requires At(p, w) && Midway(p, w, gone) && UsersIn(p, users)
      ensures Valid()
    {
      MidwayTyped(p, w, gone);
      assert w == nodes.World();
      forall i, j | 0 <= i < |users| && 0 <= j < |users[i]| ensures users[i][j] in nodes.space.nodes {
        assert users[i][j] in w.ids;
      }
    }

    /** The trash that guards the content, found from its parent upwards. */
    method FindTrash(content: Node) returns (trash: Node?)
      requires nodes.Valid() && content in nodes.space.nodes
      ensures TrashFor(nodes.space.Tree(), nodes.space.Kinds(), content) == if trash == null then None else Some(trash)
    {
      nodes.space.ParentListed(content);
      assert nodes.space.Tree().parent[content] == content.Up();
      trash := null;
      if content.parent != null {
        var guards := content.parent.GetGuards(nodes.space, Trash);
        if guards != [] {
          trash := guards[0];
        }
      }
    }

    /** The same in a known state, which stays. */
    method FindTrashAt(content: Node, ghost p: Cascade<Node>, ghost w: World<Node>) returns (trash: Node?)
      requires nodes.Valid() && At(p, w) && content in nodes.space.nodes
      ensures Typed(w) && content in w.ids && At(p, w)
      ensures TrashFor(w.tree, w.kinds, content) == if trash == null then None else Some(trash)
    {
      trash := FindTrash(content);
    }

    method IsInsideAt(node: Node, content: Node, ghost p: Cascade<Node>, ghost w: World<Node>) returns (inside: bool)
      requires nodes.Valid() && At(p, w) && node in nodes.space.nodes
      ensures WellFormed(w.tree) && node in w.tree.parent && At(p, w)
      ensures inside <==> Under(w.tree.parent, node, content)
    {
      inside := IsInside(node, content);
    }

    /** Whether the content is to be deleted and not moved: no trash guards it, or it is in it already. */
    method IsDirect(content: Node, ghost p: Cascade<Node>, ghost w: World<Node>) returns (trash: Node?, direct: bool)
      requires nodes.Valid() && At(p, w) && content in nodes.space.nodes
      ensures Typed(w) && content in w.ids && At(p, w)
      ensures TrashFor(w.tree, w.kinds, content) == if trash == null then None else Some(trash)
      ensures direct <==> Unguarded(w.tree, w.kinds, content)
    {
      trash := FindTrashAt(content, p, w);
      direct := trash == null;
      if trash != null {
        direct := IsInsideAt(content, trash, p, w);
      }
    }

    /** The same test in the middle of a run. */
    method MayDelete(content: Node, ghost p: Cascade<Node>, ghost w: World<Node>) returns (r: bool)
      requires Valid() && At(p, w) && content in nodes.space.nodes
      ensures WellFormed(w.tree) && At(p, w) && (r <==> Deletable(w.tree, users, content))
    {
      r := IsDeletable(content);
    }

    lemma ValidStanding(p: Cascade<Node>, w: World<Node>)
      requires At(p, w) && Stands(p, w) && UsersIn(p, users)
      ensures Valid() && Typed(w) && w.tree == p.f && w.kinds == p.kinds
    {
      ValidMidway(p, w, {});
      StandsTree(p, w);
    }

    /** Deletes content with the references to it. */
    method DeleteWhole(content: Node, ghost p: Cascade<Node>, ghost w: World<Node>) returns (ghost v: World<Node>)
      requires At(p, w) && Stands(p, w) && Ending(p, content) && content != p.root
      modifies nodes`stored, nodes`nodesByPath
      modifies nodes.space`changed, nodes.space.nodes`parent, nodes.space.nodes`children
      ensures At(p, v) && Stands(Cut(p, Closure(p.f, Links(p), Subtree(p.f.parent, content))), v)
    {
      ghost var gone;
      v, gone := DeleteDirect(content, p, w, {});
      StandsWhole(p, v, gone, content);
    }

    /** Deletes content that no trash guards, unless a user has a root inside. */
    method DeleteUnguarded(content: Node, ghost p: Cascade<Node>, ghost w: World<Node>) returns (ghost v: World<Node>)
      requires UsersIn(p, users) && At(p, w) && Stands(p, w) && content in p.f.kids && content != p.root
      requires Deletable(p.f, users, content) ==> Ending(p, content)
      modifies nodes`stored, nodes`nodesByPath
      modifies nodes.space`changed, nodes.space.nodes`parent, nodes.space.nodes`children
      ensures At(p, v)
      ensures Stands(if Deletable(p.f, users, content)
                     then Cut(p, Closure(p.f, Links(p), Subtree(p.f.parent, content))) else p, v)
    {
      v := w;
      ValidStanding(p, w);
      var deletable := MayDelete(content, p, w);
      if deletable {
        v := DeleteWhole(content, p, w);
      }
    }

    /** Moves content into a trash and writes both. */
    method MoveToTrash(content: Node, trash: Node, ghost p: Cascade<Node>, ghost w: World<Node>)
      returns (ghost v: World<Node>)
      requires Valid() && At(p, w) && content in nodes.space.nodes && trash in nodes.space.nodes
      requires !Under<Node>(nodes.space.Tree().parent, trash, content)
      modifies nodes`stored, nodes`nodesByPath
      modifies nodes.space`changed, nodes.space.nodes`parent, nodes.space.nodes`children
      ensures Typed(w) && trash in w.ids && content in w.ids && !Under(w.tree.parent, trash, content)
      ensures v == Trashed(w, p.root, trash, content) && At(p, v)
    {
      AppendMoved(w.tree, trash, content);
      AppendToTrash(content, trash, p, w);
      v := SaveAt(trash, p, w.(tree := AppendChild(w.tree, trash, content)));
    }

    /** `Nodes.save` in a known state. */
    method SaveAt(node: Node, ghost p: Cascade<Node>, ghost w: World<Node>) returns (ghost v: World<Node>)
      requires nodes.Valid() && At(p, w) && node in nodes.space.nodes
      modifies nodes`stored, nodes`nodesByPath, nodes.space`changed
      ensures Typed(w) && node in w.tree.kids && WellFormed(Marked(w.tree, node))
      ensures v == Flushed(w.(tree := Marked(w.tree, node)), p.root) && At(p, v)
    {
      MarkedWellFormed(w.tree, node);
      nodes.Save(node);
      v := Flushed(w.(tree := Marked(w.tree, node)), p.root);
    }

    method AppendToTrash(content: Node, trash: Node, ghost p: Cascade<Node>, ghost w: World<Node>)
      requires Valid() && At(p, w) && content in nodes.space.nodes && trash in nodes.space.nodes
      requires Typed(w) && trash in w.ids && content in w.ids && WellFormed(AppendChild(w.tree, trash, content))
      modifies nodes.space`changed, nodes.space.nodes`parent, nodes.space.nodes`children
      ensures nodes.Valid() && At(p, w.(tree := AppendChild(w.tree, trash, content)))
    {
      trash.AppendChild(nodes.space, content);
      nodes.OnlyTree();
    }

    /** Writes a trash that was emptied. */
    method SaveTrash(trash: Node, ghost p: Cascade<Node>, ghost w: World<Node>) returns (ghost v: World<Node>)
      requires At(p, w) && Stands(p, w) && trash in p.f.kids
      modifies nodes`stored, nodes`nodesByPath, nodes.space`changed
      ensures At(p, v) && Stands(p, v)
    {
      StandsTree(p, w);
      assert w == nodes.World();
      v := SaveAt(trash, p, w);
      MidwaySaved(p, w, {}, trash);
    }

    /** Moves content into the trash that guards it. */
    method DeleteGuarded(content: Node, trash: Node, ghost p: Cascade<Node>, ghost w: World<Node>)
      returns (ghost v: World<Node>)
      requires UsersIn(p, users) && At(p, w) && Stands(p, w) && content in p.f.kids && content != p.root
      requires p.kinds[content] != Trash && TrashFor(p.f, p.kinds, content) == Some(trash)
      modifies nodes`stored, nodes`nodesByPath
      modifies nodes.space`changed, nodes.space.nodes`parent, nodes.space.nodes`children
      ensures At(p, v) && Stands(Binned(p, trash, content), v)
    {
      ValidStanding(p, w);
      TrashReady(p.f, p.kinds, p.root, content);
      StandsMoved(p, w, trash, content);
      v := MoveToTrash(content, trash, p, w);
    }

    /** The branch for content that is not a trash. */
    method DeleteContent(content: Node, ghost p: Cascade<Node>, ghost w: World<Node>) returns (ghost v: World<Node>)
      requires UsersIn(p, users) && At(p, w) && Stands(p, w)
      requires content in p.f.kids && content != p.root && p.kinds[content] != Trash
      requires DeleteEnds(p, users, content)
      modifies nodes`stored, nodes`nodesByPath
      modifies nodes.space`changed, nodes.space.nodes`parent, nodes.space.nodes`children
      ensures At(p, v) && Stands(AfterContent(p, users, content), v)
    {
      ValidStanding(p, w);
      var trash, direct := IsDirect(content, p, w);
      if direct {
        v := DeleteUnguarded(content, p, w);
      } else {
        v := DeleteGuarded(content, trash, p, w);
      }
    }

    /** Whether a child of the trash is still there and may be deleted. */
    method IsLeft(child: Node, ghost p: Cascade<Node>, ghost w: World<Node>) returns (r: bool)
      requires Valid() && At(p, w) && child in nodes.space.nodes
      ensures Typed(w) && child in w.tree.kids && At(p, w)
      ensures r <==> w.tree.parent[child].Some? && Deletable(w.tree, users, child)
    {
      assert w.tree.parent[child] == child.Up();
      r := false;
      if child.parent != null {
        r := MayDelete(child, p, w);
      }
    }

    /** The same test, where tree and database are in step. */
    method IsNext(child: Node, ghost p: Cascade<Node>, ghost w: World<Node>) returns (r: bool)
      requires UsersIn(p, users) && At(p, w) && Stands(p, w) && child in p.f.kids
      ensures At(p, w) && (r <==> Due(p, users, child))
    {
      ValidStanding(p, w);
      r := IsLeft(child, p, w);
    }

    /** What is at or below `n`; all calls for it stay inside. */
    ghost function Tree(p: Cascade<Node>, n: Node): set<Node> {
      if WellPosed(p) then Subtree(p.f.parent, n) else {}
    }

    /** One turn of the loop that empties a trash: `p` is the state before the loop, `u` the one before the turn. */
    method DeleteChild(trash: Node, i: nat, child: Node, ghost p: Cascade<Node>, ghost u: Cascade<Node>,
                       ghost w: World<Node>)
      returns (ghost v: World<Node>)
      requires UsersIn(u, users) && Turned(p, u, trash, i) && trash in p.f.kids && i < |p.f.kids[trash]|
      requires p.f.kids[trash][i] == child && TurnComesToEnd(p, u, users, trash, i)
      requires At(u, w) && Stands(u, w)
      modifies nodes`stored, nodes`nodesByPath
      modifies nodes.space`changed, nodes.space.nodes`parent, nodes.space.nodes`children
      ensures At(u, v) && Stands(AfterTurn(p, u, users, trash, i), v)
      decreases Tree(p, trash), 0, 0
    {
      v := w;
      TurnStarts(p, u, trash, i);
      var next := IsNext(child, u, w);
      if next {
        v := Delete(child, u, w);
      }
    }

    /** The same turn, seen from the loop. */
    method NextChild(trash: Node, children: seq<Node>, i: nat, ghost p: Cascade<Node>, ghost u: Cascade<Node>,
                     ghost w: World<Node>)
      returns (ghost q: Cascade<Node>, ghost v: World<Node>)
      requires trash in p.f.kids && children == p.f.kids[trash] && i < |children|
      requires At(p, w) && Emptying(p, users, trash, i, u, w)
      modifies nodes`stored, nodes`nodesByPath
      modifies nodes.space`changed, nodes.space.nodes`parent, nodes.space.nodes`children
      ensures At(p, v) && Emptying(p, users, trash, i + 1, q, v)
      decreases Tree(p, trash), 1, 0
    {
      EmptyingTurn(p, users, trash, i, u, w);
      v := DeleteChild(trash, i, children[i], p, u, w);
      EmptyingNext(p, users, trash, i, u, w, v);
      q := AfterTurn(p, u, users, trash, i);
    }

    /** The loop that empties a trash; it runs over the children as they were before the first of
        them was deleted. */
    method DeleteChildren(trash: Node, children: seq<Node>, ghost p: Cascade<Node>, ghost w: World<Node>)
      returns (ghost q: Cascade<Node>, ghost v: World<Node>)
      requires trash in p.f.kids && children == p.f.kids[trash] && At(p, w) && Emptying(p, users, trash, 0, p, w)
      modifies nodes`stored, nodes`nodesByPath
      modifies nodes.space`changed, nodes.space.nodes`parent, nodes.space.nodes`children
      ensures At(p, v) && Emptying(p, users, trash, |children|, q, v)
      decreases Tree(p, trash), 1, 1
    {
      q, v := p, w;
      for i := 0 to |children|
        invariant At(p, v) && Emptying(p, users, trash, i, q, v)
      {
        q, v := NextChild(trash, children, i, p, q, v);
      }
    }

    method EmptyTrash(trash: Node, ghost p: Cascade<Node>, ghost w: World<Node>) returns (ghost v: World<Node>)
      requires UsersIn(p, users) && At(p, w) && Stands(p, w) && trash in p.f.kids && trash != p.root
      requires p.kinds[trash] == Trash && p.f.kids[trash] != [] && DeleteEnds(p, users, trash)
      modifies nodes`stored, nodes`nodesByPath
      modifies nodes.space`changed, nodes.space.nodes`parent, nodes.space.nodes`children
      ensures At(p, v) && Stands(AfterDelete(p, users, trash), v)
      decreases Tree(p, trash), 1, 2
    {
      StandsTree(p, w);
      assert w.tree.kids[trash] == trash.children;
      EmptyingFirst(p, users, trash, w);
      ghost var q;
      q, v := DeleteChildren(trash, trash.children, p, w);
      EmptyingLast(p, users, trash, q, v);
      v := SaveTrash(trash, q, v);
    }

    /** Deletes an empty trash. */
    method DeleteTrash(trash: Node, ghost p: Cascade<Node>, ghost w: World<Node>) returns (ghost v: World<Node>)
      requires At(p, w) && Stands(p, w) && trash in p.f.kids && trash != p.root && p.f.kids[trash] == []
      modifies nodes`stored, nodes`nodesByPath
      modifies nodes.space`changed, nodes.space.nodes`parent, nodes.space.nodes`children
      ensures At(p, v) && Stands(Cut(p, Subtree(p.f.parent, trash)), v)
    {
      StandsTree(p, w);
      StandsWithout(p, w, trash);
      assert w == nodes.World();
      v := DeleteNode(trash, p, w);
    }

    /** `delete`: `p` and `w` describe the state before it. */
    method Delete(content: Node, ghost p: Cascade<Node>, ghost w: World<Node>) returns (ghost v: World<Node>)
      requires UsersIn(p, users) && At(p, w) && Stands(p, w) && content in p.f.kids && content != p.root
      requires DeleteEnds(p, users, content)
      modifies nodes`stored, nodes`nodesByPath
      modifies nodes.space`changed, nodes.space.nodes`parent, nodes.space.nodes`children
      ensures At(p, v) && Stands(AfterDelete(p, users, content), v)
      decreases Tree(p, content), 2, 0
    {
      StandsTree(p, w);
      assert w.tree.kids[content] == content.children && w.kinds[content] == content.kind;
      if content.kind == Trash {
        if content.children == [] {
          v := DeleteTrash(content, p, w);
        } else {
          v := EmptyTrash(content, p, w);
        }
      } else {
        v := DeleteContent(content, p, w);
      }
    }
  }
}
