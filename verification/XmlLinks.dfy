/** The links among sibling nodes in tinyxml2.cpp: Unlink and InsertEndChild. */
module XmlLinks {

  class XmlNode {
    var parent: XmlNode?
    var firstChild: XmlNode?
    var lastChild: XmlNode?
    var prev: XmlNode?
    var next: XmlNode?
    ghost var kids: seq<XmlNode>   // the children in document order

    constructor ()
      ensures parent == firstChild == lastChild == prev == next == null && kids == []
    {
      parent, firstChild, lastChild, prev, next, kids := null, null, null, null, null, [];
    }

    /** The child pointers of this node, and the sibling pointers of its children, describe the list kids. */
    ghost predicate Valid()
      reads this`firstChild, this`lastChild, this`kids, kids`parent, kids`prev, kids`next
    {
      && (forall i, j | 0 <= i < j < |kids| :: kids[i] != kids[j])
      && firstChild == At(kids, 0) && lastChild == At(kids, |kids| - 1)
      && forall i | 0 <= i < |kids| :: ChildOk(i)
    }

    ghost predicate ChildOk(i: nat)
      requires i < |kids|
      reads this`kids, kids`parent, kids`prev, kids`next
    {
      kids[i].parent == this && kids[i].prev == At(kids, i - 1) && kids[i].next == At(kids, i + 1)
    }

    /** The stores of XMLNode::Unlink. */
    method UnlinkFields(child: XmlNode, before: XmlNode?, after: XmlNode?)
      requires child.prev == before && child.next == after && before != child && after != child
      requires (before != null ==> before != after)
      modifies this`firstChild, this`lastChild, child`parent, child`prev, child`next
      modifies (if before == null then {} else {before})`next, (if after == null then {} else {after})`prev
      ensures firstChild == if child == old(firstChild) then after else old(firstChild)
      ensures lastChild == if child == old(lastChild) then before else old(lastChild)
      ensures child.parent == child.prev == child.next == null
      ensures (before != null ==> before.next == after) && (after != null ==> after.prev == before)
    {
      if child == firstChild {
        firstChild := firstChild.next;
      }
      if child == lastChild {
        lastChild := lastChild.prev;
      }
      if child.prev != null {
        child.prev.next := child.next;
      }
      if child.next != null {
        child.next.prev := child.prev;
      }
      child.next := null;
      child.prev := null;
      child.parent := null;
    }

    /** XMLNode::Unlink */
    method Unlink(child: XmlNode, ghost k: nat)
      requires Valid() && k < |kids| && kids[k] == child
      modifies this`firstChild, this`lastChild, this`kids, kids`prev, kids`next, child`parent
      ensures Valid() && kids == old(kids)[..k] + old(kids)[k + 1..]
      ensures child.parent == child.prev == child.next == null && child !in kids
    {
      ghost var was := kids;
      assert ChildOk(k);
      UnlinkFields(child, child.prev, child.next);
      kids := kids[..k] + kids[k + 1..];
      forall i | 0 <= i < |kids|
        ensures ChildOk(i)
      {
        var j := if i < k then i else i + 1;
        assert old(ChildOk(j)) && kids[i] == was[j] && was[j] != child;
        assert At(kids, i - 1) == if j == k + 1 then At(was, k - 1) else At(was, j - 1);
        assert At(kids, i + 1) == if j == k - 1 then At(was, k + 1) else At(was, j + 1);
      }
    }

    /** XMLNode::InsertEndChild, of a node that has no parent. */
    method Append(addThis: XmlNode)
      requires Valid() && addThis !in kids && addThis != this
      modifies this`firstChild, this`lastChild, this`kids, kids`next, addThis`parent, addThis`prev, addThis`next
      ensures Valid() && kids == old(kids) + [addThis]
    {
      ghost var was := kids;
      assert kids != [] ==> ChildOk(|kids| - 1);
      if lastChild != null {
        lastChild.next := addThis;
        addThis.prev := lastChild;
        lastChild := addThis;
        addThis.next := null;
      } else {
        firstChild := addThis;
        lastChild := addThis;
        addThis.prev := null;
        addThis.next := null;
      }
      addThis.parent := this;
      kids := kids + [addThis];
      forall i | 0 <= i < |kids|
        ensures ChildOk(i)
      {
        assert i < |was| ==> old(ChildOk(i)) && kids[i] == was[i];
        assert At(kids, i - 1) == if i == |was| then At(was, |was| - 1) else At(was, i - 1);
        assert At(kids, i + 1) == if i + 1 == |was| then addThis else At(was, i + 1);
      }
    }

    /** Unlinking a child of another parent leaves the children of this one alone. */
    method UnlinkFrom(former: XmlNode, child: XmlNode, ghost k: nat)
      requires Valid() && former != this && former.Valid() && k < |former.kids| && former.kids[k] == child
      modifies former`firstChild, former`lastChild, former`kids, former.kids`prev, former.kids`next, child`parent
      ensures former.Valid() && former.kids == old(former.kids)[..k] + old(former.kids)[k + 1..]
      ensures Valid() && child.parent == null && child !in former.kids && child !in kids
    {
      Strangers(former);
      ghost var mine := kids;
      former.Unlink(child, k);
      assert forall x <- mine :: x.prev == old(x.prev) && x.next == old(x.next) && x.parent == old(x.parent);
      forall i | 0 <= i < |kids|
        ensures ChildOk(i)
      {
        assert old(ChildOk(i)) && kids[i] in mine;
      }
    }

    /** Appending a child leaves the children of another parent alone. */
    method AppendBeside(former: XmlNode, addThis: XmlNode)
      requires Valid() && former != this && former.Valid() && addThis !in kids && addThis !in former.kids
      requires addThis != this
      modifies this`firstChild, this`lastChild, this`kids, kids`next, addThis`parent, addThis`prev, addThis`next
      ensures Valid() && kids == old(kids) + [addThis]
      ensures former.Valid() && former.kids == old(former.kids)
    {
      Strangers(former);
      ghost var theirs := former.kids;
      Append(addThis);
      assert forall x <- theirs :: x.prev == old(x.prev) && x.next == old(x.next) && x.parent == old(x.parent);
      forall i | 0 <= i < |former.kids|
        ensures former.ChildOk(i)
      {
        assert old(former.ChildOk(i)) && former.kids[i] in theirs;
      }
    }

    /** XMLNode::InsertEndChild: the node leaves its former parent, if it has one, and becomes the last child. */
    method InsertEndChild(addThis: XmlNode, ghost k: nat)
      requires Valid() && addThis != this && (addThis in kids ==> addThis.parent == this)
      requires addThis.parent != null ==>
                 addThis.parent.Valid() && k < |addThis.parent.kids|
                 && addThis.parent.kids[k] == addThis
      modifies this, kids, addThis, addThis.parent, if addThis.parent == null then [] else addThis.parent.kids
      ensures Valid()
      ensures if old(addThis.parent) == this then kids == old(kids)[..k] + old(kids)[k + 1..] + [addThis]
        else kids == old(kids) + [addThis]
      ensures old(addThis.parent) != null && old(addThis.parent) != this ==>
        old(addThis.parent).Valid()
            && old(addThis.parent).kids == old(addThis.parent.kids)[..k] + old(addThis.parent.kids)[k + 1..]
    {
      var former := addThis.parent;
      if former == null {
        Append(addThis);
      } else if former == this {
        Unlink(addThis, k);
        Append(addThis);
      } else {
        UnlinkFrom(former, addThis, k);
        AppendBeside(former, addThis);
      }
    }

    /** Two parents share no child. */
    lemma Strangers(other: XmlNode)
      requires Valid() && other.Valid()
      ensures other != this ==> forall x <- kids :: x !in other.kids
    {
      if other != this {
        forall i, j | 0 <= i < |kids| && 0 <= j < |other.kids|
          ensures kids[i] != other.kids[j]
        {
          assert ChildOk(i) && other.ChildOk(j);
        }
      }
    }
  }

  ghost function At(s: seq<XmlNode>, i: int): XmlNode?
  {
    if 0 <= i < |s| then s[i] else null
  }
}
