/**
 The HTML fragment the upload handler of main.py builds from a verdict: a
 "Vegetarian" or "Not Vegetarian" line, then, when there are ambiguous
 lines, a heading and a `<ul>` list with one `<li>` per line. The fragment
 is paired with a parser that recovers the verdict from it.
 */
module Report {
  import opened Text
  import opened Classifier

  datatype Option<T> = None | Some(value: T)

  const NotVegetarianTag: string := "<strong>Not Vegetarian:</strong>"
  const VegetarianTag: string := "<strong>Vegetarian:</strong>"
  const LineEnd: string := "<br>"

  const VegetarianLine: string := VegetarianTag + " No non-vegetarian items found." + LineEnd
  const NotVegetarianOpen: string :=
    NotVegetarianTag + " Found non-vegetarian items: <span style='color: red;'>"
  const NotVegetarianClose: string := "</span>" + LineEnd
  const ItemSeparator: string := ", "
  const AmbiguousHeading: string := "<strong>Ambiguous Items:</strong><br>"
  const ListOpen: string := "<ul>"
  const ListClose: string := "</ul>"
  const ItemOpen: string := "<li>"
  const ItemClose: string := "</li>"

  /** The verdict line: the "Not Vegetarian" line with the matched terms
      joined by ", " when there are any, the "Vegetarian" line otherwise. */
  function VerdictLine(nonVeg: seq<string>): (r: string)
    ensures |NotVegetarianTag| <= |r| && |VegetarianTag| <= |r|
    ensures StartsWith(r, NotVegetarianTag) <==> |nonVeg| > 0
    ensures StartsWith(r, VegetarianTag) <==> |nonVeg| == 0
    ensures EndsWith(r, LineEnd)
  {
    if |nonVeg| > 0 then
      var mid := " Found non-vegetarian items: <span style='color: red;'>" + Join(nonVeg, ItemSeparator) + "</span>";
      var line := NotVegetarianOpen + Join(nonVeg, ItemSeparator) + NotVegetarianClose;
      assert line == NotVegetarianTag + mid + LineEnd;
      assert line[..|NotVegetarianTag|] == NotVegetarianTag;
      assert line[8] == NotVegetarianTag[8] == 'N' != VegetarianTag[8];
      assert line[|line| - |LineEnd|..] == LineEnd;
      line
    else
      var mid := " No non-vegetarian items found.";
      assert VegetarianLine == VegetarianTag + mid + LineEnd;
      assert VegetarianLine[..|VegetarianTag|] == VegetarianTag;
      assert VegetarianLine[8] == VegetarianTag[8] == 'V' != NotVegetarianTag[8];
      assert VegetarianLine[|VegetarianLine| - |LineEnd|..] == LineEnd;
      VegetarianLine
  }

  /** One `<li>` ... `</li>` item per entry, in order. */
  function ListItems(items: seq<string>): (r: string)
    ensures |items| == 0 <==> r == []
    ensures |items| > 0 ==> StartsWith(r, ItemOpen) && EndsWith(r, ItemClose)
    decreases |items|
  {
    if |items| == 0 then []
    else
      var rest := ListItems(items[1..]);
      Wrapped(ItemOpen, items[0], ItemClose, rest);
      ItemOpen + items[0] + ItemClose + rest
  }

  /** An item wrapped in `open` and `close`, followed by text that is empty
      or itself ends with `close`, starts with `open` and ends with `close`. */
  lemma Wrapped(open: string, x: string, close: string, rest: string)
    requires |rest| == 0 || EndsWith(rest, close)
    ensures StartsWith(open + x + close + rest, open)
    ensures EndsWith(open + x + close + rest, close)
  {
    var r := open + x + close + rest;
    assert r[..|open|] == open;
    if |rest| == 0 {
      assert r == open + x + close;
      assert r[|r| - |close|..] == close;
    } else {
      assert r[|r| - |close|..] == rest[|rest| - |close|..];
    }
  }

  /** The ambiguous-items section: empty exactly when there is nothing to
      list, and otherwise the heading followed by a list closed by `</ul>`. */
  function AmbiguousSection(ambiguous: seq<string>): (r: string)
    ensures r == [] <==> |ambiguous| == 0
    ensures |ambiguous| > 0 ==> StartsWith(r, AmbiguousHeading) && EndsWith(r, ListClose)
  {
    if |ambiguous| > 0 then
      var r := AmbiguousHeading + ListOpen + ListItems(ambiguous) + ListClose;
      assert r[..|AmbiguousHeading|] == AmbiguousHeading;
      assert r[|r| - |ListClose|..] == ListClose;
      r
    else []
  }

  /** `result_message` as the upload handler assembles it. */
  function ResultMessage(v: Verdict): (m: string)
    ensures StartsWith(m, NotVegetarianTag) <==> |v.nonVeg| > 0
    ensures StartsWith(m, VegetarianTag) <==> |v.nonVeg| == 0
    ensures EndsWith(m, ListClose) <==> |v.ambiguous| > 0
  {
    var line := VerdictLine(v.nonVeg);
    var section := AmbiguousSection(v.ambiguous);
    StartsWithWithin(line, section, NotVegetarianTag);
    StartsWithWithin(line, section, VegetarianTag);
    if |v.ambiguous| == 0 then
      assert line + section == line;
      assert line[|line| - 2] == LineEnd[2] == 'r' != ListClose[|ListClose| - 2];
      line + section
    else
      EndsWithExtend(line, section, ListClose);
      line + section
  }

  /* ---------------------------------------------------------------------
     Reading the fragment back
     --------------------------------------------------------------------- */

  const ListingOpen: string := AmbiguousHeading + ListOpen + ItemOpen
  const ListingClose: string := ItemClose + ListClose
  const ItemBreak: string := ItemClose + ItemOpen

  /** Reads the ambiguous-items section that follows the verdict line. */
  function ParseSection(nonVeg: seq<string>, rest: string): Option<Verdict> {
    if |rest| == 0 then
      Some(Verdict(nonVeg, []))
    else if && StartsWith(rest, ListingOpen)
            && |ListingOpen| + |ListingClose| <= |rest|
            && EndsWith(rest, ListingClose) then
      Some(Verdict(nonVeg, SplitOn(rest[|ListingOpen|..|rest| - |ListingClose|], ItemBreak)))
    else
      None
  }

  /** Recovers the verdict from a result message, or `None` when the text
      is not shaped like one. */
  function ParseMessage(m: string): Option<Verdict> {
    if StartsWith(m, VegetarianLine) then
      ParseSection([], m[|VegetarianLine|..])
    else if StartsWith(m, NotVegetarianOpen) then
      var cut := Partition(m[|NotVegetarianOpen|..], NotVegetarianClose);
      if cut.found then ParseSection(SplitOn(cut.head, ItemSeparator), cut.tail) else None
    else
      None
  }

  /* Regroupings of concatenations the proofs below rely on. */

  lemma Regroup(open: string, x: string, close: string, j: string)
    ensures open + x + close + (open + j + close) == open + (x + (close + open) + j) + close
  {
  }

  lemma Reframe(a: string, b: string, c: string, m: string, d: string, e: string)
    ensures a + b + (c + m + d) + e == (a + b + c) + m + (d + e)
  {
  }

  lemma Reassoc(a: string, b: string, c: string, d: string)
    ensures a + b + c + d == a + (b + c + d)
  {
  }

  /** The list items are the entries joined by "</li><li>" and wrapped in
      one "<li>" ... "</li>" pair. */
  lemma {:induction false} ListItemsAsJoin(items: seq<string>)
    requires |items| > 0
    ensures ListItems(items) == ItemOpen + Join(items, ItemBreak) + ItemClose
    decreases |items|
  {
    if |items| == 1 {
      assert ListItems(items[1..]) == [];
    } else {
      ListItemsAsJoin(items[1..]);
      var j := Join(items[1..], ItemBreak);
      assert ListItems(items) == ItemOpen + items[0] + ItemClose + (ItemOpen + j + ItemClose);
      assert Join(items, ItemBreak) == items[0] + ItemBreak + j;
      Regroup(ItemOpen, items[0], ItemClose, j);
    }
  }

  /** A non-empty section is the listing frame around the entries joined
      by "</li><li>". */
  lemma SectionAsJoin(ambiguous: seq<string>)
    requires |ambiguous| > 0
    ensures AmbiguousSection(ambiguous) == ListingOpen + Join(ambiguous, ItemBreak) + ListingClose
  {
    ListItemsAsJoin(ambiguous);
    Reframe(AmbiguousHeading, ListOpen, ItemOpen, Join(ambiguous, ItemBreak), ItemClose, ListClose);
  }

  /** Entries without '<' are read back from their section. */
  lemma ParseSectionOf(nonVeg: seq<string>, ambiguous: seq<string>)
    requires forall i :: 0 <= i < |ambiguous| ==> '<' !in ambiguous[i]
    ensures ParseSection(nonVeg, AmbiguousSection(ambiguous)) == Some(Verdict(nonVeg, ambiguous))
  {
    if |ambiguous| > 0 {
      var j := Join(ambiguous, ItemBreak);
      SectionAsJoin(ambiguous);
      Between(ListingOpen, j, ListingClose);
      assert ItemBreak[0] == '<';
      SplitOnJoin(ambiguous, ItemBreak);
    }
  }

  /** After the vegetarian line the parser reads the section. */
  lemma ParseAfterVegetarianLine(section: string)
    ensures ParseMessage(VegetarianLine + section) == ParseSection([], section)
  {
    var m := VegetarianLine + section;
    assert StartsWith(m, VegetarianLine);
    assert m[|VegetarianLine|..] == section;
  }

  /** After the "Not Vegetarian" line the parser reads back the matched
      terms, then the section. */
  lemma ParseAfterNotVegetarianLine(nonVeg: seq<string>, section: string)
    requires |nonVeg| > 0
    requires forall i :: 0 <= i < |nonVeg| ==> '<' !in nonVeg[i] && ',' !in nonVeg[i]
    ensures ParseMessage(VerdictLine(nonVeg) + section) == ParseSection(nonVeg, section)
  {
    var j := Join(nonVeg, ItemSeparator);
    var line := VerdictLine(nonVeg);
    var m := line + section;
    var after := j + NotVegetarianClose + section;
    assert line == NotVegetarianOpen + j + NotVegetarianClose;
    Reassoc(NotVegetarianOpen, j, NotVegetarianClose, section);
    StartsWithConcat(NotVegetarianOpen, after);
    assert VegetarianLine == VegetarianTag + (" No non-vegetarian items found." + LineEnd);
    StartsWithPrefix(m, VegetarianTag, " No non-vegetarian items found." + LineEnd);
    StartsWithWithin(line, section, VegetarianTag);
    assert !StartsWith(m, VegetarianLine);
    assert '<' !in ItemSeparator && ItemSeparator[0] == ',';
    JoinAvoids(nonVeg, ItemSeparator, '<');
    PartitionAfter(j, NotVegetarianClose, section);
    SplitOnJoin(nonVeg, ItemSeparator);
  }

  /** Reading a result message back yields the verdict it was built from,
      provided no matched term contains '<' or ',' and no entry contains
      '<'. */
  lemma ParseResultMessage(v: Verdict)
    requires forall i :: 0 <= i < |v.nonVeg| ==> '<' !in v.nonVeg[i] && ',' !in v.nonVeg[i]
    requires forall i :: 0 <= i < |v.ambiguous| ==> '<' !in v.ambiguous[i]
    ensures ParseMessage(ResultMessage(v)) == Some(v)
  {
    var section := AmbiguousSection(v.ambiguous);
    assert ResultMessage(v) == VerdictLine(v.nonVeg) + section;
    ParseSectionOf(v.nonVeg, v.ambiguous);
    if |v.nonVeg| == 0 {
      ParseAfterVegetarianLine(section);
    } else {
      ParseAfterNotVegetarianLine(v.nonVeg, section);
    }
  }

  /** The shipped terms are plain words. */
  lemma ShippedTermsPlain()
    ensures forall t :: t in NonVegIngredients ==> '<' !in t && ',' !in t
  {
    var s := NonVegIngredients;
    forall i | 0 <= i < |s|
      ensures '<' !in s[i] && ',' !in s[i]
    {
      assert forall k :: 0 <= k < |s[i]| ==> 'A' <= s[i][k] <= 'z';
    }
  }

  /** The message of the shipped classifier always reads back to its
      verdict: the shipped terms contain neither '<' nor ',', and no line
      is ever reported. */
  lemma ParseShippedMessage(text: string)
    ensures ParseMessage(ResultMessage(CheckShipped(text))) == Some(CheckShipped(text))
  {
    var v := CheckShipped(text);
    ShippedPhraseNeverReports(text);
    ShippedTermsPlain();
    assert forall i :: 0 <= i < |v.nonVeg| ==> v.nonVeg[i] in v.nonVeg;
    ParseResultMessage(v);
  }
}
