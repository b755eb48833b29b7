/** The action-item extractor of the notes page (`extractActionItems`):
    the notes are split into lines; a line is kept when, once trimmed, it is
    non-empty and either opens with a bullet ("- " or "* ") or mentions
    "todo" in any letter case; a kept line loses one leading marker and the
    whitespace after it, and becomes an item whose id is its line index. */
module ActionItems {
  import opened Wrappers
  import opened Strings

  /** An extracted action item: `id` is the 0-based index of the line it
      came from. */
  datatype Item = Item(id: nat, description: string)

  /** The bullet test: the trimmed line starts with "- " or "* ". A marker
      followed by anything other than one plain space is not a bullet, and
      every bullet opens with a marker that the strip removes. */
  predicate LooksLikeBullet(line: string)
    ensures LooksLikeBullet(line) ==> |line| >= 2 && line[1] == ' ' && HasMarker(line)
  {
    "- " <= line || "* " <= line
  }

  /** The lower-cased line contains "todo" anywhere, even inside a word;
      so such a line has at least four characters. */
  predicate ContainsTodo(line: string)
    ensures ContainsTodo(line) ==> |line| >= 4
  {
    ContainsAt(Lower(line), "todo");
    Contains(Lower(line), "todo")
  }

  /** A raw line yields an item. A line of whitespace only never does. */
  predicate IsActionLine(rawLine: string)
    ensures IsActionLine(rawLine) ==> !AllSpace(rawLine)
  {
    TrimRemovesOnlySpace(rawLine);
    var line := Trim(rawLine);
    line != [] && (LooksLikeBullet(line) || ContainsTodo(line))
  }

  /** The line matches the regular expression `^[-*]\s+`: a marker and a
      whitespace run of at least one character after it. */
  predicate HasMarker(line: string)
    ensures HasMarker(line) ==> |line| >= 2 && LeadingSpace(line[1..]) >= 1
  {
    |line| >= 2 && (line[0] == '-' || line[0] == '*') && IsSpace(line[1])
  }

  /** `line.replace(/^[-*]\s+/, "")`: when the line opens with a marker and
      whitespace, the marker and the whole whitespace run after it go, and
      the rest of the line stays as it is; any other line is unchanged. */
  function StripMarker(line: string): (r: string)
    ensures |r| <= |line| && r == line[|line| - |r|..]
    ensures !HasMarker(line) ==> r == line
    ensures HasMarker(line) ==>
      && |r| <= |line| - 2
      && (forall i :: 1 <= i < |line| - |r| ==> IsSpace(line[i]))
      && (r == [] || !IsSpace(r[0]))
  {
    if HasMarker(line) then
      var rest := line[1..];
      var r := rest[LeadingSpace(rest)..];
      assert forall i :: 1 <= i < |line| - |r| ==> line[i] == rest[..LeadingSpace(rest)][i - 1];
      r
    else
      line
  }

  /** The description of the item a kept line becomes. */
  function Describe(rawLine: string): string
  {
    StripMarker(Trim(rawLine))
  }

  /** The per-line step of `extractActionItems`: the item line `index`
      produces, if any. A line that is empty or whitespace only never
      produces one; a produced item carries the line's index and a
      description that is a non-empty tail of the trimmed line and does not
      start with whitespace. */
  function Classify(rawLine: string, index: nat): (r: Option<Item>)
    ensures AllSpace(rawLine) ==> r.None?
    ensures r.Some? ==> r.value.id == index
    ensures r.Some? ==>
      var line := Trim(rawLine);
      var d := r.value.description;
      && d != [] && !IsSpace(d[0])
      && |d| <= |line| && d == line[|line| - |d|..]
  {
    TrimRemovesOnlySpace(rawLine);
    if IsActionLine(rawLine) then
      DescriptionShape(rawLine);
      Some(Item(index, Describe(rawLine)))
    else
      None
  }

  /** A kept line's description is non-empty and starts with a
      non-whitespace character: the trimmed line ends in non-whitespace, so
      the marker-and-whitespace strip can never consume all of it. */
  lemma DescriptionShape(rawLine: string)
    requires IsActionLine(rawLine)
    ensures Describe(rawLine) != [] && !IsSpace(Describe(rawLine)[0])
  {
  }

  /** The per-line step applied to every line, as `lines.map(...)` does:
      entry `i` is what line `i` produces. */
  function ClassifyAll(lines: seq<string>): (opts: seq<Option<Item>>)
    ensures |opts| == |lines|
    ensures forall i :: 0 <= i < |lines| ==> opts[i] == Classify(lines[i], i)
  {
    seq(|lines|, i requires 0 <= i < |lines| => Classify(lines[i], i))
  }

  /** `.filter(item => item !== null)`: the produced items, in order. No
      more items than entries, and each one was produced by some entry. */
  function Present(opts: seq<Option<Item>>): (items: seq<Item>)
    ensures |items| <= |opts|
    ensures forall item :: item in items ==> Some(item) in opts
  {
    if |opts| == 0 then []
    else
      var last := opts[|opts| - 1];
      Present(opts[..|opts| - 1]) + (if last.Some? then [last.value] else [])
  }

  /** Every produced entry carries its own position as id, as the entries
      of `ClassifyAll` do. */
  predicate Indexed(opts: seq<Option<Item>>)
  {
    forall i :: 0 <= i < |opts| && opts[i].Some? ==> opts[i].value.id == i
  }

  /** Some item in `items` has id `id`. */
  predicate HasId(items: seq<Item>, id: nat)
  {
    exists k :: 0 <= k < |items| && items[k].id == id
  }

  /** When entries carry their positions, each kept item is the entry at
      its id. */
  lemma {:induction false} PresentSound(opts: seq<Option<Item>>)
    requires Indexed(opts)
    ensures forall k :: 0 <= k < |Present(opts)| ==>
      Present(opts)[k].id < |opts| && opts[Present(opts)[k].id] == Some(Present(opts)[k])
  {
    if |opts| > 0 {
      var n := |opts| - 1;
      var prefix := opts[..n];
      var earlier := Present(prefix);
      assert Indexed(prefix);
      PresentSound(prefix);
      forall k | 0 <= k < |earlier|
        ensures opts[earlier[k].id] == Some(earlier[k])
      {
        assert prefix[earlier[k].id] == opts[earlier[k].id];
      }
      if opts[n].Some? {
        assert Present(opts) == earlier + [opts[n].value];
      } else {
        assert Present(opts) == earlier;
      }
    }
  }

  /** When entries carry their positions, the kept items' ids strictly
      increase. */
  lemma {:induction false} PresentOrdered(opts: seq<Option<Item>>)
    requires Indexed(opts)
    ensures forall k, m :: 0 <= k < m < |Present(opts)| ==> Present(opts)[k].id < Present(opts)[m].id
  {
    if |opts| > 0 {
      var n := |opts| - 1;
      var prefix := opts[..n];
      var earlier := Present(prefix);
      assert Indexed(prefix);
      PresentOrdered(prefix);
      if opts[n].Some? {
        PresentSound(prefix);
        assert Present(opts) == earlier + [opts[n].value];
      } else {
        assert Present(opts) == earlier;
      }
    }
  }

  /** When entries carry their positions, every produced entry is kept. */
  lemma {:induction false} PresentComplete(opts: seq<Option<Item>>)
    requires Indexed(opts)
    ensures forall i :: 0 <= i < |opts| && opts[i].Some? ==> HasId(Present(opts), i)
  {
    if |opts| > 0 {
      var n := |opts| - 1;
      var prefix := opts[..n];
      var earlier := Present(prefix);
      var items := Present(opts);
      assert Indexed(prefix);
      PresentComplete(prefix);
      assert items[..|earlier|] == earlier by {
        if opts[n].Some? {
          assert items == earlier + [opts[n].value];
        } else {
          assert items == earlier;
        }
      }
      forall i | 0 <= i < |opts| && opts[i].Some?
        ensures HasId(items, i)
      {
        if i == n {
          assert items == earlier + [opts[n].value];
          assert items[|earlier|].id == i;
        } else {
          assert prefix[i] == opts[i];
          var k :| 0 <= k < |earlier| && earlier[k].id == i;
          assert items[k] == earlier[k];
        }
      }
    }
  }

  /** `extractActionItems`: the notes text is split on "\n", every line is
      classified with its index, and the lines that produce nothing are
      dropped. */
  function Extract(notes: string): (items: seq<Item>)
    ensures |items| <= Count(notes, '\n') + 1
  {
    Present(ClassifyAll(Split(notes, '\n')))
  }

  /** When entries carry their positions, the kept items are exactly the
      produced entries, in position order. */
  lemma PresentCorrect(opts: seq<Option<Item>>)
    requires Indexed(opts)
    ensures var items := Present(opts);
      && (forall k, m :: 0 <= k < m < |items| ==> items[k].id < items[m].id)
      && (forall k :: 0 <= k < |items| ==> items[k].id < |opts| && opts[items[k].id] == Some(items[k]))
      && (forall i :: 0 <= i < |opts| ==> (opts[i].Some? <==> HasId(items, i)))
  {
    PresentOrdered(opts);
    PresentSound(opts);
    PresentComplete(opts);
    forall i | 0 <= i < |opts| && HasId(Present(opts), i)
      ensures opts[i].Some?
    {
      var k :| 0 <= k < |Present(opts)| && Present(opts)[k].id == i;
    }
  }

  /** Extraction over given lines, in order: the items are the lines'
      classifications, ids strictly increasing, and a line yields an item
      exactly when some item carries its index. */
  lemma ClassifiedLinesCorrect(lines: seq<string>)
    ensures var items := Present(ClassifyAll(lines));
      && (forall k, m :: 0 <= k < m < |items| ==> items[k].id < items[m].id)
      && (forall k :: 0 <= k < |items| ==>
            && items[k].id < |lines|
            && Classify(lines[items[k].id], items[k].id) == Some(items[k]))
      && (forall i :: 0 <= i < |lines| ==> (Classify(lines[i], i).Some? <==> HasId(items, i)))
  {
    var opts := ClassifyAll(lines);
    assert Indexed(opts);
    PresentCorrect(opts);
  }

  /** The extractor's contract, stated on the notes text: the item count is
      at most the number of lines; ids are line indices, strictly
      increasing (hence unique), so items come in line order; each item is
      what its own line produces; and a line yields an item exactly when
      some item carries its index. */
  lemma ExtractCorrect(notes: string)
    ensures var lines := Split(notes, '\n');
      var items := Extract(notes);
      && |items| <= |lines|
      && (forall k, m :: 0 <= k < m < |items| ==> items[k].id < items[m].id)
      && (forall k :: 0 <= k < |items| ==>
            && items[k].id < |lines|
            && Classify(lines[items[k].id], items[k].id) == Some(items[k]))
      && (forall i :: 0 <= i < |lines| ==> (Classify(lines[i], i).Some? <==> HasId(items, i)))
  {
    ClassifiedLinesCorrect(Split(notes, '\n'));
  }

  /** Line `i` of the notes yields an item exactly when it is an action
      line: non-empty once trimmed, and a bullet or a "todo" line. */
  lemma ExtractKeepsActionLines(notes: string, i: nat)
    requires i < |Split(notes, '\n')|
    ensures var line := Trim(Split(notes, '\n')[i]);
      HasId(Extract(notes), i) <==> line != [] && (LooksLikeBullet(line) || ContainsTodo(line))
  {
    var lines := Split(notes, '\n');
    ExtractCorrect(notes);
    ClassifyKeeps(lines[i], i);
  }

  /** Item `k` comes from an action line, and its description is that line
      trimmed and stripped of its marker. */
  lemma ExtractedItem(notes: string, k: nat)
    requires k < |Extract(notes)|
    ensures var item := Extract(notes)[k];
      && item.id < |Split(notes, '\n')|
      && IsActionLine(Split(notes, '\n')[item.id])
      && item.description == StripMarker(Trim(Split(notes, '\n')[item.id]))
  {
    var lines := Split(notes, '\n');
    var item := Extract(notes)[k];
    ExtractCorrect(notes);
    ClassifyKeeps(lines[item.id], item.id);
  }

  /** Bridge from `Classify` to the predicates it tests: a line produces
      an item exactly when it is an action line, and the item's description
      is then the trimmed line without its marker. It only unfolds
      `Classify`, kept apart so that the lemmas above see the unfolding for
      one line at a time. */
  lemma ClassifyKeeps(rawLine: string, index: nat)
    ensures Classify(rawLine, index).Some? <==> IsActionLine(rawLine)
    ensures Classify(rawLine, index).Some? ==>
      Classify(rawLine, index).value.description == StripMarker(Trim(rawLine))
  {
  }

  /** Blank and whitespace-only lines never produce an item. */
  lemma BlankLinesDropped(notes: string, i: nat)
    requires i < |Split(notes, '\n')|
    requires AllSpace(Split(notes, '\n')[i])
    ensures forall k :: 0 <= k < |Extract(notes)| ==> Extract(notes)[k].id != i
  {
    ExtractCorrect(notes);
  }

  /** Every description is non-empty, starts with non-whitespace and holds
      no line break. */
  lemma DescriptionsWellFormed(notes: string)
    ensures forall k :: 0 <= k < |Extract(notes)| ==>
      var d := Extract(notes)[k].description;
      d != [] && !IsSpace(d[0]) && '\n' !in d
  {
    var lines := Split(notes, '\n');
    var items := Extract(notes);
    ExtractCorrect(notes);
    forall k | 0 <= k < |items|
      ensures var d := items[k].description; d != [] && !IsSpace(d[0]) && '\n' !in d
    {
      var raw := lines[items[k].id];
      DescriptionShape(raw);
      DescribeKeepsOut(raw, '\n');
    }
  }

  /** A character absent from a line is absent from its description. */
  lemma DescribeKeepsOut(rawLine: string, c: char)
    requires c !in rawLine
    ensures c !in Describe(rawLine)
  {
    var line := Trim(rawLine);
    var d := Describe(rawLine);
    assert forall x :: x in line ==> x in rawLine;
    assert forall x :: x in d ==> x in line;
  }
}
