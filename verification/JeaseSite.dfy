/** Who guards the access to a node: the upward search with a memory of what it selected. */
module JeaseSite {
  import opened Sequences
  import opened Chains
  import opened Runs
  import opened Guards
  import opened CmfDomain

  class Authorizations {
    const space: Space
    var accessByContent: map<Node, seq<Node>>  // emptied by every write

    constructor (space: Space)
      ensures this.space == space && accessByContent == map[]
    {
      this.space, accessByContent := space, map[];
    }

    ghost function GateOf(guarding: set<Node>): Gate<Node>
      reads space, space.nodes
    {
      Gate(space.Tree(), space.Kinds(), space.Targets(), guarding)
    }

    /** The loop over the references that may lead to access objects. */
    method ReferredAccess(references: seq<Node>, ghost g: Gate<Node>) returns (guards: seq<Node>)
      requires GateTyped(g) && g.kinds == space.Kinds() && g.targets == space.Targets()
      requires forall r | r in references :: r in space.nodes
      ensures guards == Referred(g, references)
    {
      guards := [];
      for i := 0 to |references|
        invariant guards + Referred(g, references[i..]) == Referred(g, references)
      {
        ReferredNext(g, references, i, guards);
        assert g.targets[references[i]] == if references[i].target == null then None else Some(references[i].target);
        if references[i].target != null {
          var content: Node := references[i].target;
          assert g.targets[references[i]] == Some(content) && g.kinds[content] == content.kind;
          if content.kind == Access {
            guards := guards + [content];
          }
        }
      }
      assert guards + [] == guards;
    }

    method Find(content: Node, k: Kind, ghost g: Gate<Node>, ghost guarding: set<Node>) returns (guards: seq<Node>)
      requires GateTyped(g) && g == GateOf(guarding) && content in space.nodes
      ensures guards == Found(g, content, k) && g == GateOf(guarding)
    {
      guards := content.FindGuards(space, k, g.tree, g.kinds);
    }

    /** The guards that are remembered for a node, active or not. */
    method Select(content: Node, ghost g: Gate<Node>, guarding: set<Node>) returns (guards: seq<Node>)
      requires GateTyped(g) && g == GateOf(guarding) && content in space.nodes
      ensures guards == Selected(g, content) && g == GateOf(guarding)
    {
      SelectedIs(g, content);
      guards := Find(content, Access, g, guarding);
      if guards == [] {
        var references := Find(content, Reference, g, guarding);
        guards := ReferredAccess(references, g);
      }
    }

    method ActiveGuards(guards: seq<Node>, guarding: set<Node>) returns (active: seq<Node>)
      ensures active == Active(guards, guarding)
    {
      active := [];
      for i := 0 to |guards|
        invariant active + Active(guards[i..], guarding) == Active(guards, guarding)
      {
        ActiveNext(guards, guarding, i, active);
        if guards[i] in guarding {
          active := active + [guards[i]];
        }
      }
      assert active + [] == active;
    }

    /** The guards of one node, from memory if they are there. */
    method Recall(content: Node, ghost g: Gate<Node>, guarding: set<Node>) returns (guards: seq<Node>)
      requires GuardsRemembered(g, accessByContent) && g == GateOf(guarding) && content in space.nodes
      modifies this`accessByContent
      ensures GuardsRemembered(g, accessByContent) && g == GateOf(guarding) && guards == Selected(g, content)
    {
      if content !in accessByContent {
        Remember(content, g, guarding);
      }
      assert Recalls(g, accessByContent, content);
      guards := accessByContent[content];
    }

    method Remember(content: Node, ghost g: Gate<Node>, guarding: set<Node>)
      requires GuardsRemembered(g, accessByContent) && g == GateOf(guarding) && content in space.nodes
      modifies this`accessByContent
      ensures GuardsRemembered(g, accessByContent) && g == GateOf(guarding) && content in accessByContent
    {
      var all := Select(content, g, guarding);
      GuardsRememberedMore(g, accessByContent, content);
      Put(content, all, g, guarding);
    }

    method Put(content: Node, guards: seq<Node>, ghost g: Gate<Node>, ghost guarding: set<Node>)
      requires g == GateOf(guarding)
      modifies this`accessByContent
      ensures accessByContent == old(accessByContent)[content := guards] && g == GateOf(guarding)
    {
      accessByContent := accessByContent[content := guards];
    }

    /** Those of them that are active. */
    method RecallActive(content: Node, ghost g: Gate<Node>, guarding: set<Node>) returns (guards: seq<Node>)
      requires GuardsRemembered(g, accessByContent) && g == GateOf(guarding) && content in space.nodes
      modifies this`accessByContent
      ensures GuardsRemembered(g, accessByContent) && g == GateOf(guarding)
      ensures guards == Active(Selected(g, content), guarding)
    {
      var all := Recall(content, g, guarding);
      guards := ActiveGuards(all, guarding);
    }

    /** The active guards of the node or of its nearest ancestor that has any; an empty result stands
        for `null`. Remembering changes nothing about the answer. */
    method GetGuards(content: Node?, ghost g: Gate<Node>, guarding: set<Node>) returns (guards: seq<Node>)
      requires GuardsRemembered(g, accessByContent) && g == GateOf(guarding)
      requires content != null ==> content in space.nodes
      modifies this`accessByContent
      ensures GuardsRemembered(g, accessByContent)
      ensures content == null ==> guards == []
      ensures content != null ==>
        guards == match AccessGuards<Node>(g, content) case Some(active) => active case None => []
      decreases if content == null then 0 else Depth<Node>(g.tree.parent, content) + 1
    {
      if content == null {
        return [];
      }
      guards := RecallActive(content, g, guarding);
      if guards == [] {
        assert g.tree.parent[content] == content.Up();
        if content.parent != null { DepthOfParent<Node>(g.tree.parent, content); }
        guards := GetGuards(content.parent, g, guarding);
      }
    }
  }
}
