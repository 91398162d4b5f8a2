/** The notification banners of the page: how long a banner stays before it
    hides itself, and the list of banners currently attached to the page,
    which `showNotification` appends to and `removeNotification` takes from. */
module Notifications {

  /** What a caller hands to `showNotification`: the text and the `type`. */
  datatype Notice = Notice(message: string, kind: string)

  /** One banner on the page; `id` stands for the identity of its DOM node. */
  datatype Banner = Banner(id: nat, notice: Notice, hideDelay: nat)

  /** The auto-hide delay in milliseconds: errors stay longer. */
  function HideDelay(kind: string): (ms: nat)
    ensures kind == "error" ==> ms == 8000
    ensures kind != "error" ==> ms == 5000
  {
    if kind == "error" then 8000 else 5000
  }

  /** The banners of `banners` other than the one with node `id`, in their
      original order (`WithoutRemovesTheNode`). */
  function Without(banners: seq<Banner>, id: nat): (r: seq<Banner>)
    ensures |r| <= |banners|
    ensures forall b :: b in r <==> b in banners && b.id != id
  {
    if banners == [] then []
    else if banners[0].id == id then Without(banners[1..], id)
    else [banners[0]] + Without(banners[1..], id)
  }

  /** Removing a node that is not on the page changes nothing. */
  lemma {:induction false} WithoutAbsent(banners: seq<Banner>, id: nat)
    requires forall i :: 0 <= i < |banners| ==> banners[i].id != id
    ensures Without(banners, id) == banners
  {
    if banners != [] {
      WithoutAbsent(banners[1..], id);
      assert [banners[0]] + banners[1..] == banners;
    }
  }

  /** Removing the same node twice has the effect of removing it once, which
      is why the close button and the timer may both fire. */
  lemma RemoveTwiceIsRemoveOnce(banners: seq<Banner>, id: nat)
    ensures Without(Without(banners, id), id) == Without(banners, id)
  {
    var once := Without(banners, id);
    forall i | 0 <= i < |once| ensures once[i].id != id {
      assert once[i] in once;
    }
    WithoutAbsent(once, id);
  }

  /** The banners currently attached to the page body, oldest first. */
  class NotificationArea {
    var banners: seq<Banner>
    var nextId: nat

    /** Every banner is a distinct node created before `nextId`. */
    ghost predicate Valid()
      reads this
    {
      (forall i :: 0 <= i < |banners| ==> banners[i].id < nextId) &&
      DistinctIds(banners)
    }

    constructor ()
      ensures Valid() && banners == []
    {
      banners := [];
      nextId := 0;
    }

    /** `showNotification(message, type = 'info')`: appends a new banner
        without removing the ones already shown, and arms its auto-hide timer
        with `HideDelay(kind)`. */
    method Show(message: string, kind: string := "info") returns (b: Banner)
      requires Valid()
      modifies this
      ensures Valid()
      ensures b == Banner(old(nextId), Notice(message, kind), HideDelay(kind))
      ensures b.id !in set i | 0 <= i < |old(banners)| :: old(banners)[i].id
      ensures banners == old(banners) + [b]
    {
      b := Banner(nextId, Notice(message, kind), HideDelay(kind));
      ghost var before := banners;
      banners := banners + [b];
      assert forall i :: 0 <= i < |before| ==> banners[i] == before[i];
      nextId := nextId + 1;
    }

    /** The deferred part of `removeNotification(node)`: the node is detached
        if it is still attached, and nothing happens otherwise. */
    method Remove(id: nat)
      requires Valid()
      modifies this
      ensures Valid()
      ensures banners == Without(old(banners), id)
      ensures nextId == old(nextId)
    {
      WithoutKeepsDistinct(banners, id);
      var r := Without(banners, id);
      forall i | 0 <= i < |r| ensures r[i].id < nextId {
        assert r[i] in banners;
      }
      banners := r;
    }
  }

  /** No two banners are the same node. */
  predicate DistinctIds(banners: seq<Banner>) {
    forall i, j :: 0 <= i < j < |banners| ==> banners[i].id != banners[j].id
  }

  /** What Without keeps is a subsequence, so its ids stay distinct. */
  lemma {:induction false} WithoutKeepsDistinct(banners: seq<Banner>, id: nat)
    requires DistinctIds(banners)
    ensures DistinctIds(Without(banners, id))
  {
    if banners != [] {
      WithoutKeepsDistinct(banners[1..], id);
      var rest := Without(banners[1..], id);
      if banners[0].id != id {
        var r := [banners[0]] + rest;
        forall i, j | 0 <= i < j < |r| ensures r[i].id != r[j].id {
          if i == 0 {
            assert r[j] in rest;
            var k :| 0 <= k < |banners[1..]| && banners[1..][k] == r[j];
            assert banners[k + 1] == r[j];
            assert banners[0].id != banners[k + 1].id;
            assert r[0] == banners[0];
            assert r[i].id != r[j].id;
          } else {
            assert r[i] == rest[i - 1] && r[j] == rest[j - 1];
            assert rest[i - 1].id != rest[j - 1].id;
          }
        }
      }
    }
  }

  /** The tail of a list of distinct nodes is a list of distinct nodes. */
  lemma TailKeepsDistinct(banners: seq<Banner>)
    requires DistinctIds(banners) && banners != []
    ensures DistinctIds(banners[1..])
    ensures forall k :: 0 <= k < |banners[1..]| ==> banners[1..][k].id != banners[0].id
  {
    var rest := banners[1..];
    forall a, b | 0 <= a < b < |rest| ensures rest[a].id != rest[b].id {
      assert rest[a] == banners[a + 1] && rest[b] == banners[b + 1];
    }
    forall k | 0 <= k < |rest| ensures rest[k].id != banners[0].id {
      assert rest[k] == banners[k + 1];
    }
  }

  /** Removing the first of a list of distinct nodes leaves the tail. */
  lemma RemoveFirstNode(banners: seq<Banner>)
    requires DistinctIds(banners) && banners != []
    ensures Without(banners, banners[0].id) == banners[1..]
  {
    TailKeepsDistinct(banners);
    WithoutAbsent(banners[1..], banners[0].id);
  }

  /** Removing a node other than the first keeps the first in front. */
  lemma RemoveLaterNode(banners: seq<Banner>, id: nat)
    requires banners != [] && banners[0].id != id
    ensures Without(banners, id) == [banners[0]] + Without(banners[1..], id)
  {
  }

  /** On a page whose banners are distinct nodes, removing an attached node
      takes out exactly that banner and keeps the others in their order. */
  lemma {:induction false} WithoutRemovesTheNode(banners: seq<Banner>, i: nat)
    requires DistinctIds(banners) && i < |banners|
    ensures Without(banners, banners[i].id) == banners[..i] + banners[i + 1..]
  {
    if i == 0 {
      RemoveFirstNode(banners);
    } else {
      var rest := banners[1..];
      TailKeepsDistinct(banners);
      assert rest[i - 1] == banners[i];
      WithoutRemovesTheNode(rest, i - 1);
      RemoveLaterNode(banners, banners[i].id);
      assert [banners[0]] + (rest[..i - 1] + rest[i..]) == banners[..i] + banners[i + 1..];
    }
  }
}
