/** The intrusive, doubly linked child list of rapidxml's xml_node. */
module XmlSiblings {
  class XmlNode {
    var m_parent: XmlNode?
    var m_prev_sibling: XmlNode?
    var m_next_sibling: XmlNode?
    var m_first_node: XmlNode?
    var m_last_node: XmlNode?
    // The children, in order
    ghost var kids: seq<XmlNode>

    constructor ()
      ensures Valid() && kids == [] && m_parent == null
    {
      m_parent, m_prev_sibling, m_next_sibling, m_first_node, m_last_node := null, null, null, null, null;
      kids := [];
    }

    // m_last_node is only meaningful when there are children, siblings only below a parent.
    ghost predicate Valid()
      reads this, kids
    {
      && this !in kids
      && m_first_node == At(kids, 0) && (kids != [] ==> m_last_node == kids[|kids| - 1])
      && Distinct(kids)
      && (forall j {:trigger kids[j].m_parent} :: 0 <= j < |kids| ==> kids[j].m_parent == this)
      && (forall j {:trigger kids[j].m_next_sibling} :: 0 <= j < |kids| ==> kids[j].m_next_sibling == At(kids, j + 1))
      && (forall j {:trigger kids[j].m_prev_sibling} :: 0 <= j < |kids| ==> kids[j].m_prev_sibling == At(kids, j - 1))
    }

    method PrependNode(child: XmlNode)
      requires Valid() && child.m_parent == null && child != this
      modifies this`m_first_node, this`m_last_node, this`kids,
               child`m_parent, child`m_prev_sibling, child`m_next_sibling
      modifies kids`m_prev_sibling
      ensures Valid() && kids == [child] + old(kids)
    {
      ghost var was := kids;
      Members(was);
      if m_first_node != null {
        child.m_next_sibling := m_first_node;
        m_first_node.m_prev_sibling := child;
      } else {
        child.m_next_sibling := null;
        m_last_node := child;
      }
      m_first_node := child;
      child.m_parent := this;
      child.m_prev_sibling := null;
      kids := [child] + was;
      assert forall j :: 1 <= j < |kids| ==> kids[j] == was[j - 1];
    }

    method AppendNode(child: XmlNode)
      requires Valid() && child.m_parent == null && child != this
      modifies this`m_first_node, this`m_last_node, this`kids,
               child`m_parent, child`m_prev_sibling, child`m_next_sibling
      modifies kids`m_next_sibling
      ensures Valid() && kids == old(kids) + [child]
    {
      ghost var was := kids;
      Members(was);
      if m_first_node != null {
        child.m_prev_sibling := m_last_node;
        m_last_node.m_next_sibling := child;
      } else {
        child.m_prev_sibling := null;
        m_first_node := child;
      }
      m_last_node := child;
      child.m_parent := this;
      child.m_next_sibling := null;
      kids := was + [child];
      assert forall j :: 0 <= j < |was| ==> kids[j] == was[j];
    }

    // insert_node: before `where`, the i-th child, or at the end.
    method InsertNode(where: XmlNode?, child: XmlNode, ghost i: nat)
      requires Valid() && child.m_parent == null && child != this
      requires i <= |kids| && where == if i < |kids| then kids[i] else null
      modifies this`m_first_node, this`m_last_node, this`kids,
               child`m_parent, child`m_prev_sibling, child`m_next_sibling
      modifies kids`m_prev_sibling, kids`m_next_sibling
      ensures Valid() && kids == old(kids)[..i] + [child] + old(kids)[i..]
    {
      if where == m_first_node {
        PrependNode(child);
      } else if where == null {
        AppendNode(child);
      } else {
        InsertedAt(kids, child, i);
        InsertBefore(where, child, i, kids[..i] + [child] + kids[i..]);
      }
    }

    // The middle case of insert_node; `list` is what the children become.
    method InsertBefore(where: XmlNode, child: XmlNode, ghost i: nat, ghost list: seq<XmlNode>)
      requires Valid() && child.m_parent == null && child != this
      requires 0 < i < |kids| && where == kids[i] && Inserted(kids, child, i, list)
      modifies this`kids,
               child`m_parent, child`m_prev_sibling, child`m_next_sibling
      modifies kids`m_prev_sibling, kids`m_next_sibling
      ensures Valid() && kids == list
    {
      hide Valid, Distinct;
      ghost var was := kids;
      Parts();
      assert child !in was;
      Members(was);
      Others(was, i);
      Others(was, i - 1);
      assert Joined(was, i) && Joined(was, i - 1);
      assert At(list, 0) == At(was, 0);
      child.m_prev_sibling := where.m_prev_sibling;
      child.m_next_sibling := where;
      where.m_prev_sibling.m_next_sibling := child;
      where.m_prev_sibling := child;
      child.m_parent := this;
      kids := list;
      forall j | 0 <= j < |list|
        ensures Joined(list, j)
      {
        if j < i {
          assert old(Joined(was, j)) && list[j] == was[j];
          assert At(list, j - 1) == At(was, j - 1);
          assert At(list, j + 1) == if j + 1 == i then child else At(was, j + 1);
        } else if j > i {
          assert old(Joined(was, j - 1)) && list[j] == was[j - 1];
          assert At(list, j + 1) == At(was, j);
          assert At(list, j - 1) == if j == i + 1 then child else At(was, j - 2);
        } else {
          assert At(list, j - 1) == was[i - 1] && At(list, j + 1) == was[i];
        }
      }
      Whole();
    }

    // A child, its parent and its neighbours
    ghost predicate Joined(list: seq<XmlNode>, j: nat)
      requires j < |list|
      reads list
    {
      list[j].m_parent == this && list[j].m_next_sibling == At(list, j + 1) && list[j].m_prev_sibling == At(list, j - 1)
    }

    lemma Parts()
      requires Valid()
      ensures this !in kids && Distinct(kids) && forall j :: 0 <= j < |kids| ==> Joined(kids, j)
      ensures m_first_node == At(kids, 0) && (kids != [] ==> m_last_node == kids[|kids| - 1])
      ensures forall x :: x in kids ==> x.m_parent == this
    {
      hide At;
    }

    lemma Whole()
      requires this !in kids && Distinct(kids) && forall j :: 0 <= j < |kids| ==> Joined(kids, j)
      requires m_first_node == At(kids, 0) && (kids != [] ==> m_last_node == kids[|kids| - 1])
      ensures Valid()
    {
      hide At, Distinct;
      forall j | 0 <= j < |kids|
        ensures kids[j].m_parent == this
        ensures kids[j].m_next_sibling == At(kids, j + 1) && kids[j].m_prev_sibling == At(kids, j - 1)
      {
        assert Joined(kids, j);
      }
    }

    method RemoveFirstNode()
      requires Valid() && kids != []
      modifies this`m_first_node, this`m_last_node, this`kids, kids`m_parent, kids`m_prev_sibling
      ensures Valid() && kids == old(kids)[1..] && old(kids)[0].m_parent == null
    {
      ghost var was := kids;
      Members(was);
      var child := m_first_node;
      m_first_node := child.m_next_sibling;
      if child.m_next_sibling != null {
        child.m_next_sibling.m_prev_sibling := null;
      } else {
        m_last_node := null;
      }
      child.m_parent := null;
      kids := was[1..];
    }

    method RemoveLastNode()
      requires Valid() && kids != []
      modifies this`m_first_node, this`m_last_node, this`kids, kids`m_parent, kids`m_next_sibling
      ensures Valid() && kids == old(kids)[..|old(kids)| - 1] && old(kids)[|old(kids)| - 1].m_parent == null
    {
      ghost var was := kids;
      Members(was);
      var child := m_last_node;
      if child.m_prev_sibling != null {
        m_last_node := child.m_prev_sibling;
        child.m_prev_sibling.m_next_sibling := null;
      } else {
        m_first_node := null;
      }
      child.m_parent := null;
      kids := was[..|was| - 1];
    }

    // remove_node: the i-th child leaves the list and can be added to another one.
    method RemoveNode(where: XmlNode, ghost i: nat)
      requires Valid() && i < |kids| && where == kids[i]
      modifies this`m_first_node, this`m_last_node, this`kids
      modifies kids`m_parent, kids`m_prev_sibling, kids`m_next_sibling
      ensures Valid() && kids == old(kids)[..i] + old(kids)[i + 1..] && where.m_parent == null
    {
      assert where == kids[0] ==> i == 0;
      assert where == kids[|kids| - 1] ==> i == |kids| - 1;
      if where == m_first_node {
        RemoveFirstNode();
      } else if where == m_last_node {
        RemoveLastNode();
      } else {
        Unlink(where, i);
      }
    }

    method Unlink(where: XmlNode, ghost i: nat)
      requires Valid() && 0 < i < |kids| - 1 && where == kids[i]
      modifies this`kids, kids`m_parent, kids`m_prev_sibling, kids`m_next_sibling
      ensures Valid() && kids == old(kids)[..i] + old(kids)[i + 1..] && where.m_parent == null
    {
      hide Valid, Distinct, At;
      ghost var was := kids;
      Parts();
      Members(was);
      Neighbours(was, i);
      Others(was, i - 1);
      Others(was, i);
      Others(was, i + 1);
      RemovedAt(was, i);
      assert Joined(was, i - 1) && Joined(was, i) && Joined(was, i + 1);
      where.m_prev_sibling.m_next_sibling := where.m_next_sibling;
      where.m_next_sibling.m_prev_sibling := where.m_prev_sibling;
      where.m_parent := null;
      kids := was[..i] + was[i + 1..];
      ghost var list := kids;
      forall j | 0 <= j < |list|
        ensures Joined(list, j)
      {
        ghost var k := if j < i then j else j + 1;
        assert old(Joined(was, k)) && list[j] == was[k] && Beside(was, i, list, j);
      }
      Whole();
    }

    // remove_all_nodes
    method RemoveAllNodes()
      requires Valid()
      modifies this`m_first_node, this`kids, kids`m_parent
      ensures Valid() && kids == [] && forall x :: x in old(kids) ==> x.m_parent == null
    {
      ghost var was := kids;
      ghost var n := 0;
      Members(was);
      var node := m_first_node;
      while node != null
        invariant n <= |was| && node == At(was, n)
        invariant forall j :: 0 <= j < n ==> was[j].m_parent == null
        decreases |was| - n
        modifies was`m_parent
      {
        node.m_parent := null;
        node, n := node.m_next_sibling, n + 1;
      }
      m_first_node := null;
      kids := [];
    }
  }

  ghost predicate Distinct(list: seq<XmlNode>) {
    forall i, j :: 0 <= i < j < |list| ==> list[i] != list[j]
  }

  lemma Others(list: seq<XmlNode>, i: nat)
    requires Distinct(list) && i < |list|
    ensures forall j :: 0 <= j < |list| && j != i ==> list[j] != list[i]
  {
  }

  function At(list: seq<XmlNode>, j: int): XmlNode? {
    if 0 <= j < |list| then list[j] else null
  }

  lemma Members(list: seq<XmlNode>)
    ensures forall j :: 0 <= j < |list| ==> list[j] in list
  {
  }

  ghost predicate Inserted(was: seq<XmlNode>, child: XmlNode, i: nat, list: seq<XmlNode>) {
    && i <= |was| && |list| == |was| + 1 && Distinct(list)
    && (forall x :: x in list ==> x == child || x in was)
    && forall j {:trigger list[j]} :: 0 <= j < |list| ==>
         list[j] == if j < i then was[j] else if j == i then child else was[j - 1]
  }

  lemma InsertedAt(was: seq<XmlNode>, child: XmlNode, i: nat)
    requires i <= |was| && child !in was && Distinct(was)
    ensures Inserted(was, child, i, was[..i] + [child] + was[i..])
  {
  }

  // The neighbours of the j-th child when the i-th is gone
  ghost predicate Beside(was: seq<XmlNode>, i: nat, list: seq<XmlNode>, j: nat) {
    && At(list, j - 1) == At(was, if j <= i then j - 1 else j)
    && At(list, j + 1) == At(was, if j + 1 < i then j + 1 else j + 2)
  }

  lemma Neighbours(was: seq<XmlNode>, i: nat)
    requires 0 < i < |was| - 1
    ensures var list := was[..i] + was[i + 1..];
            && At(list, 0) == At(was, 0) && list[|list| - 1] == was[|was| - 1]
            && At(was, i) == was[i] && At(was, i - 1) == was[i - 1] && At(was, i + 1) == was[i + 1]
            && forall j :: 0 <= j < |list| ==> Beside(was, i, list, j)
  {
    var list := was[..i] + was[i + 1..];
    forall j | 0 <= j < |list|
      ensures Beside(was, i, list, j)
    {
      assert j > 0 ==> list[j - 1] == if j <= i then was[j - 1] else was[j];
      assert j + 1 < |list| ==> list[j + 1] == if j + 1 < i then was[j + 1] else was[j + 2];
    }
  }

  lemma RemovedAt(was: seq<XmlNode>, i: nat)
    requires i < |was| && Distinct(was)
    ensures var list := was[..i] + was[i + 1..];
            && |list| == |was| - 1 && Distinct(list)
            && forall j :: 0 <= j < |list| ==> list[j] == was[if j < i then j else j + 1]
  {
  }
}
