/**
 * The friend-list merge of `putViettelTooltoFriendList`: make sure the
 * Viettel Enterprise Platform tools module is named in the comma-separated
 * value of a module's OpenIDE-Module-Friends attribute.
 */
module FriendList {
  import opened Wrappers
  import opened JavaStrings

  /** The module that is to become a friend. */
  const Target := "com.viettel.vep.tools"

  /** What goes between the trimmed old list and the target. */
  function Separator(trimmed: string): string {
    if EndsWith(trimmed, ",") then " " else ", "
  }

  /** The old list with one trailing comma removed, if it has one. */
  function WithoutTrailingComma(s: string): string {
    if EndsWith(s, ",") then s[..|s| - 1] else s
  }

  /**
   * `putViettelTooltoFriendList(list)`, where None stands for a null list. The
   * result always names the target; a list that already contains it (as a
   * substring) comes back unchanged, and any other list comes back changed.
   */
  function Merge(list: Option<string>): (r: string)
    ensures Contains(r, Target)
    ensures list.Some? ==> (r == list.value <==> Contains(list.value, Target))
  {
    if list.None? || list.value == "" then
      assert Target == [] + Target;
      ContainsSuffix([], Target);
      Target
    else if Contains(list.value, Target) then
      list.value
    else
      var t := Trim(list.value);
      ContainsSuffix(t + Separator(t), Target);
      t + Separator(t) + Target
  }

  /** A null or empty list becomes the target alone. */
  lemma MergeEmpty()
    ensures Merge(None) == Target
    ensures Merge(Some("")) == Target
  {
  }

  /**
   * A list without the target keeps its trimmed text as a prefix and gains the
   * target at the end, behind ", " or, after a trailing comma, behind " ".
   */
  lemma MergeAppends(s: string)
    requires s != "" && !Contains(s, Target)
    ensures var r := Merge(Some(s)); var t := Trim(s);
      StartsWith(r, t) && EndsWith(r, Target)
      && r[|t|..|r| - |Target|] == (if EndsWith(t, ",") then " " else ", ")
  {
    var t := Trim(s);
    var r := t + Separator(t) + Target;
    assert r[..|t|] == t;
    assert r[|r| - |Target|..] == Target;
    assert r[|t|..|r| - |Target|] == Separator(t);
  }

  /**
   * Read as a comma-separated list, the merged value is the old items (one
   * trailing comma absorbed, so no empty item is introduced) followed by
   * exactly one new item, the target behind one space.
   */
  lemma MergeAddsOneItem(s: string)
    requires s != "" && !Contains(s, Target)
    ensures Pieces(Merge(Some(s)), ',') == Pieces(WithoutTrailingComma(Trim(s)), ',') + [" " + Target]
  {
    var t := Trim(s);
    MergeShape(s);
    CommaShape(t, Target);
    TargetHasNoComma();
    PiecesOneMore(WithoutTrailingComma(t), " " + Target);
  }

  /** The value a list without the target is merged into. */
  lemma MergeShape(s: string)
    requires s != "" && !Contains(s, Target)
    ensures Merge(Some(s)) == Trim(s) + Separator(Trim(s)) + Target
  {
  }

  /** Whichever separator is chosen, the joint reads as one comma and one space. */
  lemma CommaShape(t: string, item: string)
    ensures t + Separator(t) + item == WithoutTrailingComma(t) + [','] + (" " + item)
  {
    if EndsWith(t, ",") {
      assert t == WithoutTrailingComma(t) + [','];
    }
  }

  /** One more comma-free item after a comma is one more piece. */
  lemma PiecesOneMore(head: string, item: string)
    requires ',' !in item
    ensures Pieces(head + [','] + item, ',') == Pieces(head, ',') + [item]
  {
    PiecesWithoutDelimiter(item, ',');
    PiecesAround(head, ',', item);
  }

  lemma TargetHasNoComma()
    ensures ',' !in " " + Target
  {
  }

  /** Merging twice is merging once: a merged list already names the target. */
  lemma MergeIdempotent(list: Option<string>)
    ensures Merge(Some(Merge(list))) == Merge(list)
  {
  }

  /** The merge leaves a list alone exactly when it already contains the target. */
  lemma MergeChangesIffAbsent(s: string)
    ensures Merge(Some(s)) != s <==> !Contains(s, Target)
  {
  }

  /**
   * The test is a substring test, not a token test: a list naming only a longer
   * module whose name contains the target is left unchanged.
   */
  lemma MergeMatchesSubstring()
    ensures Merge(Some("com.viettel.vep.tools.extra")) == "com.viettel.vep.tools.extra"
  {
    assert StartsWith("com.viettel.vep.tools.extra", Target);
  }

  /** A list of blanks only is trimmed to nothing and gets the separator anyway. */
  lemma MergeBlankList()
    ensures Merge(Some("  ")) == ", " + Target
  {
    ShortNeverContains("  ", Target);
    assert Trim("  ") == "";
  }

  /** A list of one other module gains the target behind a comma and a space. */
  lemma MergeExampleOneModule()
    ensures Merge(Some("foo.bar")) == "foo.bar, " + Target
  {
    ShortNeverContains("foo.bar", Target);
    MergeShape("foo.bar");
    TrimKeepsTrimmed("foo.bar");
  }

  /** A list ending in a comma gains only a space before the target. */
  lemma MergeExampleTrailingComma()
    ensures Merge(Some("foo.bar,")) == "foo.bar, " + Target
  {
    ShortNeverContains("foo.bar,", Target);
    MergeShape("foo.bar,");
    TrimKeepsTrimmed("foo.bar,");
  }

  /** Lists already naming the target, alone or after another module, stay as they are. */
  lemma MergeExampleAlreadyFriend()
    ensures Merge(Some("foo.bar, " + Target)) == "foo.bar, " + Target
    ensures Merge(Some(Target)) == Target
  {
    ContainsSuffix("foo.bar, ", Target);
    ContainsSuffix([], Target);
    assert [] + Target == Target;
  }
}
