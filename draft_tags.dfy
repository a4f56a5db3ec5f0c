/** The editor's tag list for the article being drafted: the `+` button
    (`addTag`) and the `×` button beside each tag (src/App.jsx, EditorPage). */
module DraftTags {
  import opened Text
  import opened Sequences

  /** The draft's tags together with the contents of the tag input box. */
  datatype TagEdit = TagEdit(tags: seq<String>, input: String)

  /** `addTag`: the trimmed input is appended when it is non-empty and not
      yet a tag, and then the input box is cleared; otherwise nothing changes. */
  function AddTag(tags: seq<String>, input: String): TagEdit
  {
    var t := Trim(input);
    if t == [] || t in tags then TagEdit(tags, input)
    else TagEdit(tags + [t], [])
  }

  function Differs(t: String): String -> bool
  {
    x => x != t
  }

  /** The `×` button of tag `t`: `tags.filter((x) => x !== t)`. */
  function RemoveTag(tags: seq<String>, t: String): seq<String>
  {
    Filter(tags, Differs(t))
  }

  /** What the editor keeps true of a draft's tags: no duplicates, and every
      tag non-empty with no surrounding whitespace. */
  predicate CleanTags(tags: seq<String>)
  {
    NoDup(tags) && forall i :: 0 <= i < |tags| ==> tags[i] != [] && IsTrimmed(tags[i])
  }

  // ---------------------------------------------------------------------
  // addTag

  /** Adding keeps every old tag in place and adds at most the trimmed input,
      at the end; the input box is cleared
      when a tag was added and otherwise keeps its text. */
  lemma AddTagSpec(tags: seq<String>, input: String)
    ensures var e := AddTag(tags, input);
            |tags| <= |e.tags| <= |tags| + 1 && e.tags[..|tags|] == tags
            && (forall x :: x in e.tags <==> x in tags || (x == Trim(input) && x != []))
            && (e.input == [] <==> (|e.tags| == |tags| + 1 || input == []))
            && (|e.tags| == |tags| + 1 <==> Trim(input) != [] && Trim(input) !in tags)
            && (|e.tags| == |tags| ==> e.input == input)
  {
  }

  /** Adding preserves duplicate-freedom and the trimmed, non-empty tags. */
  lemma AddTagKeepsClean(tags: seq<String>, input: String)
    requires CleanTags(tags)
    ensures CleanTags(AddTag(tags, input).tags)
  {
  }

  /** Pressing `+` twice with the same input adds the tag once. */
  lemma AddTagIdempotent(tags: seq<String>, input: String)
    ensures AddTag(AddTag(tags, input).tags, input).tags == AddTag(tags, input).tags
  {
  }

  // ---------------------------------------------------------------------
  // Removal

  /** Removing `t` drops every occurrence of `t` and keeps all other tags,
      each as often as before and in their order. */
  lemma RemoveTagSpec(tags: seq<String>, t: String)
    ensures t !in RemoveTag(tags, t)
    ensures forall x :: x != t ==> multiset(RemoveTag(tags, t))[x] == multiset(tags)[x]
    ensures Subsequence(RemoveTag(tags, t), tags)
    ensures t !in tags ==> RemoveTag(tags, t) == tags
  {
    FilterMembers(tags, Differs(t));
    forall x | x != t ensures multiset(RemoveTag(tags, t))[x] == multiset(tags)[x] {
      FilterCount(tags, Differs(t), x);
    }
    FilterSubsequence(tags, Differs(t));
    if t !in tags {
      FilterAll(tags, Differs(t));
    }
  }

  /** Removing keeps the draft's tags clean, and a present tag among clean
      tags shortens the list by exactly one. */
  lemma RemoveTagKeepsClean(tags: seq<String>, t: String)
    requires CleanTags(tags)
    ensures CleanTags(RemoveTag(tags, t))
    ensures t in tags ==> |RemoveTag(tags, t)| == |tags| - 1
  {
    RemoveKeepsNoDup(tags, t);
    FilterMembers(tags, Differs(t));
    var r := RemoveTag(tags, t);
    forall i | 0 <= i < |r| ensures r[i] != [] && IsTrimmed(r[i]) {
      assert r[i] in r;
    }
    if t in tags {
      FilterCount(tags, Differs(t), t);
      RemoveShrinks(tags, t);
    }
  }

  lemma {:induction false} RemoveKeepsNoDup(tags: seq<String>, t: String)
    requires NoDup(tags)
    ensures NoDup(RemoveTag(tags, t))
  {
    if tags != [] {
      var rest := tags[1..];
      assert NoDup(rest);
      RemoveKeepsNoDup(rest, t);
      FilterMembers(rest, Differs(t));
      assert tags[0] !in rest;
      FilterConcat([tags[0]], rest, Differs(t));
      assert tags == [tags[0]] + rest;
    }
  }

  lemma {:induction false} RemoveShrinks(tags: seq<String>, t: String)
    requires NoDup(tags) && t in tags
    ensures |RemoveTag(tags, t)| == |tags| - 1
  {
    var rest := tags[1..];
    assert NoDup(rest);
    if tags[0] == t {
      assert t !in rest;
      FilterAll(rest, Differs(t));
    } else {
      RemoveShrinks(rest, t);
    }
  }

  /** Removing a tag that `+` has just added restores the previous tags. */
  lemma RemoveUndoesAdd(tags: seq<String>, input: String)
    requires Trim(input) != [] && Trim(input) !in tags
    ensures RemoveTag(AddTag(tags, input).tags, Trim(input)) == tags
  {
    var t := Trim(input);
    FilterConcat(tags, [t], Differs(t));
    FilterAll(tags, Differs(t));
    assert Filter([t], Differs(t)) == [] by {
      assert [t][1..] == [];
    }
  }
}
