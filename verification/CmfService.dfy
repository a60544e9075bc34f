/** The service that validates, moves and writes back: every operation is one step of the state
    machine in module Runs. */
module CmfService {
  import opened Sequences
  import opened Chains
  import opened Forests
  import opened WriteBack
  import opened Paths
  import opened Runs
  import opened CmfDomain

  class Nodes {
    const space: Space
    var root: Node
    var stored: map<Node, Row<Node>>      // the database
    var nodesByPath: map<string, Node>    // the cache a write empties

    constructor (space: Space, root: Node)
      requires space.Sound() && root in space.nodes
      ensures this.space == space && this.root == root && stored == map[] && nodesByPath == map[]
    {
      this.space, this.root, stored, nodesByPath := space, root, map[], map[];
    }

    ghost function World(): World<Node>
      reads this, space, space.nodes
    {
      space.Bare().(stored := stored, cache := nodesByPath)
    }

    ghost predicate Valid()
      reads this, space, space.nodes
    {
      space.Sound() && root in space.nodes
    }

    /** Two states between which the service only moved nodes. */
    twostate lemma OnlyTree()
      requires space.nodes == old(space.nodes) && stored == old(stored) && nodesByPath == old(nodesByPath)
      requires forall n | n in space.nodes :: n.id == old(n.id)
      ensures World() == old(World()).(tree := space.Tree())
    {
      assert space.Ids() == old(space.Ids());
    }

    method IsRooted(node: Node) returns (r: bool)
      requires Valid() && node in space.nodes
      ensures r == Rooted(space.Tree(), root, node)
    {
      if node == root {
        UnderStep<Node>(space.Tree().parent, node, root);
        return true;
      }
      var parents := node.GetParents(space);
      ReversedIn(Chain<Node>(space.Tree().parent, node)[1..], root);
      return root in parents;
    }

    /** What is done with each changed node: a rooted one is saved, any other deleted. */
    method Traverse(node: Node)
      requires Valid() && node in space.nodes
      modifies this`stored
      ensures stored == if Rooted(space.Tree(), root, node)
        then old(stored)[node := Row(space.Tree().parent[node], space.Tree().kids[node])]
        else old(stored) - {node}
    {
      var rooted := IsRooted(node);
      if rooted {
        var parent: Option<Node> := if node.parent == null then None else Some(node.parent);
        stored := stored[node := Row(parent, node.children)];
      } else {
        stored := map n | n in stored && n != node :: stored[n];
      }
    }

    /** The same in the middle of a flush. */
    method Visit(node: Node, ghost f: Forest<Node>, ghost before: map<Node, Row<Node>>, ghost done: set<Node>)
      requires Valid() && f == space.Tree() && node in space.nodes && done <= f.kids.Keys
      requires stored == Flush(f, root, before, done)
      modifies this`stored
      ensures f == space.Tree() && stored == Flush(f, root, before, done + {node})
    {
      Traverse(node);
      FlushOneMore(f, root, before, done, node);
    }

    method ProcessChangedNodes()
      requires Valid() && space.changed <= space.nodes
      modifies this`stored, space`changed
      ensures stored == Flush(old(space.Tree()), root, old(stored), old(space.changed))
      ensures Valid() && space.Tree() == old(space.Tree()).(changed := {})
    {
      ghost var f := space.Tree();
      var todo := space.changed;
      ghost var done: set<Node> := {};
      FlushNone(f, root, stored);
      while todo != {}
        invariant space.Tree() == f && done + todo == space.changed && done <= f.kids.Keys
        invariant stored == Flush(f, root, old(stored), done)
      {
        var node :| node in todo;
        Visit(node, f, old(stored), done);
        todo, done := todo - {node}, done + {node};
      }
      assert done == f.changed;
      ClearChanged();
    }

    method ClearChanged()
      requires Valid()
      modifies space`changed
      ensures Valid() && space.Tree() == old(space.Tree()).(changed := {})
    {
      ClearedWellFormed(space.Tree());
      space.changed := {};
      assert space.Tree() == old(space.Tree()).(changed := {});
    }

    /** The same, seen from the whole state. */
    method FlushChangedNodes()
      requires Valid() && space.changed <= space.nodes
      modifies this`stored, space`changed
      ensures Valid() && World() == Flushed(old(World()), root).(cache := old(nodesByPath))
    {
      ProcessChangedNodes();
    }

    method ForgetPaths()
      requires Valid()
      modifies this`nodesByPath
      ensures Valid() && World() == old(World()).(cache := map[])
    {
      nodesByPath := map[];
    }

    /** The write at the end of every operation: the changed nodes go to the database, and the
        cache is emptied. */
    method Write()
      requires Valid() && space.changed <= space.nodes
      modifies this`stored, this`nodesByPath, space`changed
      ensures Valid() && World() == Flushed(old(World()), root)
    {
      FlushChangedNodes();
      ForgetPaths();
    }

    method Save(node: Node)
      requires Valid() && node in space.nodes
      modifies this`stored, this`nodesByPath, space`changed
      ensures Valid() && World() == Flushed(old(World()).(tree := Marked(old(space.Tree()), node)), root)
    {
      MarkedWellFormed(space.Tree(), node);
      node.MarkChanged(space);
      Write();
    }

    method Delete(node: Node)
      requires Valid() && node in space.nodes
      modifies this`stored, this`nodesByPath, space`changed, space.nodes`parent, space.nodes`children
      ensures Valid() && World() == Step(old(World()), root, Op.Delete(node))
    {
      node.Detach(space);
      OnlyTree();
      Write();
    }

    method Append(node: Node, child: Node) returns (e: Option<NodeError>)
      requires Valid() && node in space.nodes && child in space.nodes
      modifies this`stored, this`nodesByPath, space`changed, space.nodes`parent, space.nodes`children
      ensures e == Validate(old(World()), node, child, Some(old(child.id)))
      ensures Valid() && World() == Step(old(World()), root, Op.Append(node, child))
    {
      ghost var w := World();
      e := Check(node, child);
      if e.None? {
        StepAppend(w, root, node, child);
        Move(node, child);
        Save(node);
      }
    }

    /** Only the tree changes. */
    method Move(node: Node, child: Node)
      requires Valid() && node in space.nodes && child in space.nodes
      requires WellFormed(AppendChild(space.Tree(), node, child))
      modifies space`changed, space.nodes`parent, space.nodes`children
      ensures Valid() && World() == old(World()).(tree := AppendChild(old(space.Tree()), node, child))
    {
      node.AppendChild(space, child);
      OnlyTree();
    }

    method MoveAll(node: Node, children: seq<Node>)
      requires Valid() && node in space.nodes && forall c | c in children :: c in space.nodes
      requires WellFormed(AllMoved(space.Tree(), node, children))
      modifies space`changed, space.nodes`parent, space.nodes`children
      ensures Valid() && Marked(space.Tree(), node) == AllMoved(old(space.Tree()), node, children)
      ensures World() == old(World()).(tree := space.Tree())
    {
      node.AppendChildren(space, children);
      OnlyTree();
    }

    method Check(node: Node, child: Node) returns (e: Option<NodeError>)
      requires Valid() && node in space.nodes && child in space.nodes
      ensures e == Validate(World(), node, child, Some(child.id)) && World() == old(World())
    {
      e := node.ValidateChild(space, child, Some(child.id));
    }

    /** Validates all children, against the tree as it is before any of them moves. */
    method CheckAll(node: Node, children: seq<Node>) returns (e: Option<NodeError>)
      requires Valid() && node in space.nodes && forall c | c in children :: c in space.nodes
      ensures World() == old(World()) && (e.None? <==> Accepted(World(), Op.AppendAll(node, children)))
    {
      ghost var w := World();
      for i := 0 to |children|
        invariant World() == w
        invariant forall j | 0 <= j < i :: Validate(w, node, children[j], Some(w.ids[children[j]])).None?
      {
        e := Check(node, children[i]);
        if e.Some? {
          assert children[i] in children;
          return;
        }
      }
      return None;
    }

    method AppendAll(node: Node, children: seq<Node>) returns (e: Option<NodeError>)
      requires Valid() && node in space.nodes && forall c | c in children :: c in space.nodes
      modifies this`stored, this`nodesByPath, space`changed, space.nodes`parent, space.nodes`children
      ensures e.None? <==> Accepted(old(World()), Op.AppendAll(node, children))
      ensures Valid() && World() == Step(old(World()), root, Op.AppendAll(node, children))
    {
      ghost var w := World();
      e := CheckAll(node, children);
      if e.None? {
        StepAppendAll(w, root, node, children);
        MoveAll(node, children);
        Save(node);
      }
    }

    /** Resolving a path changes nothing. */
    method Resolve(path: string) returns (r: Lookup<Node>)
      requires Valid()
      ensures Valid() && World() == old(World()) && r == GetChild(Look(World()), root, path)
    {
      assert Look(World()) == space.Look();
      r := root.GetChild(space, Some(path));
    }

    method Remember(path: string, node: Node)
      requires Valid()
      modifies this`nodesByPath
      ensures World() == old(World()).(cache := old(World()).cache[path := node])
    {
      nodesByPath := nodesByPath[path := node];
    }

    method GetByPath(path: string) returns (r: Lookup<Node>)
      requires Valid()
      modifies this`nodesByPath
      ensures World() == Step(old(World()), root, Op.GetByPath(path))
      ensures r ==
        if path in old(nodesByPath) then Found(old(nodesByPath)[path]) else GetChild(old(Look(World())), root, path)
    {
      if path in nodesByPath {
        r := Found(nodesByPath[path]);
      } else {
        r := Resolve(path);
        if r.Found? {
          Remember(path, r.node);
        }
      }
    }
  }
}
