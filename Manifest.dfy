/**
 * A manifest's main attributes and the in-place update of its
 * OpenIDE-Module-Friends value (`updateManifestFriendList`, and its twin
 * `updateManifestFriendListIfNeed`).
 */
module Manifest {
  import opened Wrappers
  import opened JavaStrings
  import FriendList

  /** An attribute value: a java.lang.String, or an object of some other class. */
  datatype Value = Str(text: string) | NonString

  /**
   * One main attribute. Its name is an Attributes.Name: java.util.jar.Attributes
   * casts every key it stores to that class, so every key passes the loop's
   * `instanceof Attributes.Name` test.
   */
  datatype Attribute = Attribute(name: string, value: Value)

  /** The attribute that lists a NetBeans module's friends. */
  const FriendsKey := "OpenIDE-Module-Friends"

  predicate IsFriendsName(name: string) {
    EqualsIgnoreCase(name, FriendsKey)
  }

  /** An attribute the update rewrites: named like the friends key (any case) and holding a String. */
  predicate IsFriendSlot(a: Attribute) {
    IsFriendsName(a.name) && a.value.Str?
  }

  /** The first friend slot at or after position `from`, in key iteration order. */
  function FriendSlotFrom(attrs: seq<Attribute>, from: nat): (r: Option<nat>)
    requires from <= |attrs|
    ensures r.Some? ==> from <= r.value < |attrs| && IsFriendSlot(attrs[r.value])
    ensures r.Some? ==> forall j :: from <= j < r.value ==> !IsFriendSlot(attrs[j])
    ensures r.None? ==> forall j :: from <= j < |attrs| ==> !IsFriendSlot(attrs[j])
    decreases |attrs| - from
  {
    if from == |attrs| then None
    else if IsFriendSlot(attrs[from]) then Some(from)
    else FriendSlotFrom(attrs, from + 1)
  }

  /** The attribute the update rewrites, if there is one. */
  function FriendSlot(attrs: seq<Attribute>): Option<nat> {
    FriendSlotFrom(attrs, 0)
  }

  /**
   * What the update does to a list of attributes: whether it reports that it
   * patched them, and the attributes afterwards.
   */
  function Updated(attrs: seq<Attribute>): (r: (bool, seq<Attribute>))
    ensures |r.1| == |attrs|
    ensures !r.0 ==> r.1 == attrs
  {
    match FriendSlot(attrs)
    case None => (false, attrs)
    case Some(i) =>
      (true, attrs[i := Attribute(attrs[i].name, Str(FriendList.Merge(Some(attrs[i].value.text))))])
  }

  /** The update reports a patch exactly when some attribute is a friend slot. */
  lemma UpdateReportsFriendSlot(attrs: seq<Attribute>)
    ensures Updated(attrs).0 <==> exists i :: 0 <= i < |attrs| && IsFriendSlot(attrs[i])
  {
    if Updated(attrs).0 {
      var i := FriendSlot(attrs).value;
      assert IsFriendSlot(attrs[i]);
    }
  }

  /**
   * The update rewrites one value only: that of the first friend slot, which
   * becomes the merged list. Every name, and every other attribute, stays as it was.
   */
  lemma UpdateChangesOnlyFriendValue(attrs: seq<Attribute>)
    ensures var (patched, after) := Updated(attrs);
      (forall j :: 0 <= j < |attrs| ==> after[j].name == attrs[j].name)
      && (patched ==>
            FriendSlot(attrs).Some?
            && (var i := FriendSlot(attrs).value;
                IsFriendSlot(attrs[i])
                && after[i].value == Str(FriendList.Merge(Some(attrs[i].value.text)))
                && forall j :: 0 <= j < |attrs| && j != i ==> after[j] == attrs[j]))
  {
  }

  /**
   * The update reports a patch even when the list already names the target:
   * nothing changes, yet the caller is told to rewrite the archive.
   */
  lemma UpdateReportsPatchEvenWhenUnchanged(attrs: seq<Attribute>, i: nat)
    requires FriendSlot(attrs) == Some(i)
    requires Contains(attrs[i].value.text, FriendList.Target)
    ensures Updated(attrs) == (true, attrs)
  {
    var text := attrs[i].value.text;
    assert FriendList.Merge(Some(text)) == text;
    assert attrs[i] == Attribute(attrs[i].name, Str(text));
    assert attrs[i := attrs[i]] == attrs;
  }

  /** After a reported patch the friend slot is still the first one, and it names the target. */
  lemma UpdatedSlotNamesTarget(attrs: seq<Attribute>)
    requires Updated(attrs).0
    ensures var after := Updated(attrs).1;
      FriendSlot(after) == FriendSlot(attrs)
      && Contains(after[FriendSlot(after).value].value.text, FriendList.Target)
  {
    var i := FriendSlot(attrs).value;
    var after := Updated(attrs).1;
    assert after[i].value.text == FriendList.Merge(Some(attrs[i].value.text));
    assert IsFriendSlot(after[i]);
    assert forall j :: 0 <= j < i ==> after[j] == attrs[j];
    FirstSlotAt(after, i);
  }

  /** A friend slot at i with none before it is the first friend slot. */
  lemma {:induction false} FirstSlotAt(attrs: seq<Attribute>, i: nat)
    requires i < |attrs| && IsFriendSlot(attrs[i])
    requires forall j :: 0 <= j < i ==> !IsFriendSlot(attrs[j])
    ensures FriendSlot(attrs) == Some(i)
  {
  }

  /** Updating an updated list reports a patch again and changes nothing more. */
  lemma UpdateIdempotent(attrs: seq<Attribute>)
    ensures Updated(Updated(attrs).1) == Updated(attrs)
  {
    if Updated(attrs).0 {
      var i := FriendSlot(attrs).value;
      var after := Updated(attrs).1;
      UpdatedSlotNamesTarget(attrs);
      UpdateReportsPatchEvenWhenUnchanged(after, i);
    }
  }

  /** java.util.jar.Attributes, the main section of a manifest, updated in place. */
  class Attributes {
    /** The attributes, in the order the key set iterates them. */
    var pairs: seq<Attribute>

    constructor (pairs: seq<Attribute>)
      ensures this.pairs == pairs
    {
      this.pairs := pairs;
    }

    /**
     * `updateManifestFriendList(att)`: walk the keys; at the first one named
     * like the friends key whose value is a String, put the merged list under
     * that key and report true; report false when there is none.
     */
    method UpdateFriendList() returns (patched: bool)
      modifies this
      ensures (patched, pairs) == Updated(old(pairs))
    {
      var i := 0;
      while i < |pairs|
        invariant 0 <= i <= |pairs|
        invariant pairs == old(pairs)
        invariant FriendSlotFrom(pairs, i) == FriendSlot(pairs)
      {
        var key := pairs[i].name;
        if EqualsIgnoreCase(key, FriendsKey) {
          var value := pairs[i].value;
          if value.Str? {
            var newFriendList := FriendList.Merge(Some(value.text));
            pairs := pairs[i := Attribute(key, Str(newFriendList))];
            return true;
          }
        }
        i := i + 1;
      }
      return false;
    }
  }
}
