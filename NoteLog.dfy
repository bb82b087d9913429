/**
 * The note log: the whole note history is one text blob in which notes are
 * separated by a fixed delimiter, newest note first. A send prepends the new
 * note; the screen shows the blob split on the delimiter, reversed, with each
 * item keyed by its index.
 */
module NoteLog {
  import opened Keys
  import opened StringSplit

  /** The separator between two notes in the blob (App.js line 18). */
  const Delimiter: string := "\n\n----------\n\n"

  /** One entry of the displayed list: a display key and the note's text. */
  datatype NoteItem = NoteItem(key: string, value: string)

  /** `seq.reverse()`. */
  function Reverse<T>(s: seq<T>): (r: seq<T>)
    ensures |r| == |s|
    ensures forall i :: 0 <= i < |s| ==> r[i] == s[|s| - 1 - i]
  {
    seq(|s|, i requires 0 <= i < |s| => s[|s| - 1 - i])
  }

  /**
   * `map(item => ({ key: "" + key++, value: item }))` with a counter that
   * starts at 0: each value, in order, keyed by the numeral of its position.
   */
  function Numbered(values: seq<string>): seq<NoteItem>
  {
    seq(|values|, i requires 0 <= i < |values| => NoteItem(DecimalString(i), values[i]))
  }

  /** The displayed list for the given pieces: reversed, then numbered. */
  function Items(pieces: seq<string>): (items: seq<NoteItem>)
    ensures |items| == |pieces|
  {
    Numbered(Reverse(pieces))
  }

  /**
   * The displayed notes for the fetched contents (App.js lines 135-148): the
   * items of its split on the delimiter. There is always at least one item,
   * the empty text included.
   */
  function Parse(contents: string): (items: seq<NoteItem>)
    ensures |items| == |Split(contents, Delimiter)| >= 1
  {
    Items(Split(contents, Delimiter))
  }

  /** The new blob a send uploads: the new note, the delimiter, then the old blob (App.js line 169). */
  function Compose(content: string, oldText: string): (blob: string)
    ensures |blob| == |content| + |Delimiter| + |oldText|
    ensures blob[..|content|] == content
    ensures OccursAt(blob, Delimiter, |content|)
    ensures blob[|content| + |Delimiter|..] == oldText
  {
    content + Delimiter + oldText
  }

  // ---------------------------------------------------------------------
  // The displayed notes

  /**
   * One item per piece: the count is one more than the number of delimiter
   * occurrences, item i is keyed by the numeral of i and holds piece n-1-i.
   */
  lemma ParseShape(contents: string)
    ensures |Parse(contents)| == |Occurrences(contents, Delimiter)| + 1
    ensures forall i :: 0 <= i < |Parse(contents)| ==>
      Parse(contents)[i] == NoteItem(DecimalString(i), Split(contents, Delimiter)[|Parse(contents)| - 1 - i])
  {
    SplitCount(contents, Delimiter);
  }

  /** Keys are distinct, so they identify the items. */
  lemma ParseKeysDistinct(contents: string, i: nat, j: nat)
    requires i < |Parse(contents)| && j < |Parse(contents)|
    ensures Parse(contents)[i].key == Parse(contents)[j].key <==> i == j
  {
    KeysDistinct(i, j);
  }

  /** No displayed note holds the delimiter. */
  lemma ParseValuesFree(contents: string, i: nat)
    requires i < |Parse(contents)|
    ensures Free(Parse(contents)[i].value, Delimiter)
  {
    SplitPiecesFree(contents, Delimiter, |Parse(contents)| - 1 - i);
  }

  /** A text without the delimiter, the empty text included, is one item keyed "0". */
  lemma ParseFree(contents: string)
    requires Free(contents, Delimiter)
    ensures Parse(contents) == [NoteItem("0", contents)]
  {
    SplitFree(contents, Delimiter);
  }

  /** The last item is the text before the first delimiter: the newest note. */
  lemma ParseLastIsNewest(contents: string)
    ensures IndexOf(contents, Delimiter, 0).None? ==> Parse(contents)[|Parse(contents)| - 1].value == contents
    ensures IndexOf(contents, Delimiter, 0).Some? ==>
      Parse(contents)[|Parse(contents)| - 1].value == contents[..IndexOf(contents, Delimiter, 0).value]
  {
    SplitFirstPiece(contents, Delimiter);
  }

  /**
   * Notes joined with the delimiter, none with an occurrence straddling into
   * the delimiter after it and the oldest without one, display oldest first.
   */
  lemma ParseJoined(notes: seq<string>)
    requires IsSplitOf(notes, Join(notes, Delimiter), Delimiter)
    ensures |Parse(Join(notes, Delimiter))| == |notes|
    ensures forall i :: 0 <= i < |notes| ==>
      Parse(Join(notes, Delimiter))[i] == NoteItem(DecimalString(i), notes[|notes| - 1 - i])
  {
    SplitCharacterised(notes, Join(notes, Delimiter), Delimiter);
  }

  /**
   * Sending a note with no delimiter occurrence starting inside it keeps every
   * displayed item and adds the new note as one more item at the end.
   */
  lemma ComposeAddsOneItem(content: string, oldText: string)
    requires NoOccurrenceStartsIn(content, Delimiter)
    ensures Parse(Compose(content, oldText)) ==
      Parse(oldText) + [NoteItem(DecimalString(|Parse(oldText)|), content)]
  {
    SplitPrefix(content, oldText, Delimiter);
    ParseNewestFirst(Compose(content, oldText), content, oldText);
  }

  /**
   * A text whose first piece is newer, followed by the pieces of older, shows
   * the items of older and then newer as the last item.
   */
  lemma ParseNewestFirst(contents: string, newer: string, older: string)
    requires Split(contents, Delimiter) == [newer] + Split(older, Delimiter)
    ensures Parse(contents) == Parse(older) + [NoteItem(DecimalString(|Parse(older)|), newer)]
  {
    ItemsCons(newer, Split(older, Delimiter));
  }

  /** Putting a piece in front of the pieces appends its item at the end of the list. */
  lemma ItemsCons(newer: string, older: seq<string>)
    ensures Items([newer] + older) == Items(older) + [NoteItem(DecimalString(|older|), newer)]
  {
    ReverseCons(newer, older);
    NumberedSnoc(Reverse(older), newer);
  }

  /** Reversing a sequence with a value in front puts the value at the end. */
  lemma ReverseCons<T>(x: T, xs: seq<T>)
    ensures Reverse([x] + xs) == Reverse(xs) + [x]
  {
    var a := Reverse([x] + xs);
    var b := Reverse(xs) + [x];
    forall i | 0 <= i < |a| ensures a[i] == b[i] {
      if i < |xs| {
        var j := |xs| - 1 - i;
        assert ([x] + xs)[j + 1] == xs[j];
      }
    }
  }

  /** Item i of a numbered list is value i keyed by the numeral of i, and that key is no other item's. */
  lemma NumberedItem(values: seq<string>, i: nat, j: nat)
    requires i < |values| && j < |values|
    ensures |Numbered(values)| == |values|
    ensures Numbered(values)[i] == NoteItem(DecimalString(i), values[i])
    ensures Numbered(values)[i].key == Numbered(values)[j].key <==> i == j
  {
    KeysDistinct(i, j);
  }

  /** Numbering a sequence with a value at the end numbers the rest the same and keys the value by the old length. */
  lemma NumberedSnoc(values: seq<string>, x: string)
    ensures Numbered(values + [x]) == Numbered(values) + [NoteItem(DecimalString(|values|), x)]
  {
    var a := Numbered(values + [x]);
    var b := Numbered(values) + [NoteItem(DecimalString(|values|), x)];
    forall i | 0 <= i < |a| ensures a[i] == b[i] {
      if i < |values| {
        assert (values + [x])[i] == values[i];
      }
    }
  }




  /** Sending "hello" to an empty log uploads "hello" + delimiter and shows "" then "hello". */
  lemma SendToEmptyLog()
    ensures Compose("hello", "") == "hello" + Delimiter
    ensures Parse(Compose("hello", "")) == [NoteItem("0", ""), NoteItem("1", "hello")]
  {
    assert NoOccurrenceStartsIn("hello", Delimiter) by {
      forall j | 0 <= j < 5 ensures !OccursAt("hello" + Delimiter, Delimiter, j) {
        assert ("hello" + Delimiter)[j] != '\n';
      }
    }
    ComposeAddsOneItem("hello", "");
    ParseFree("");
  }

  /**
   * A note ending in "\n\n----------" straddles the delimiter after it: the
   * leftmost occurrence starts inside the note, so the note is not shown as
   * one item.
   */
  lemma StraddlingNoteIsMangled()
    ensures Parse(Compose("a\n\n----------", "")) == [NoteItem("0", "----------\n\n"), NoteItem("1", "a")]
  {
    var tail := "----------\n\n";
    assert Compose("a\n\n----------", "") == "a" + Delimiter + tail;
    assert NoOccurrenceStartsIn("a", Delimiter) by {
      assert ("a" + Delimiter)[0] != Delimiter[0];
    }
    SplitPrefix("a", tail, Delimiter);
    SplitFree(tail, Delimiter);
    ParseTwoPieces("a" + Delimiter + tail, "a", tail);
  }

  /** A text that splits into two pieces shows the second piece first. */
  lemma ParseTwoPieces(contents: string, newer: string, older: string)
    requires Split(contents, Delimiter) == [newer, older]
    ensures Parse(contents) == [NoteItem("0", older), NoteItem("1", newer)]
  {
    assert DecimalString(0) == "0" && DecimalString(1) == "1";
  }
}
