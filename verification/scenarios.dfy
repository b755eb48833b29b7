/** Concrete lines and what the page makes of them, proved against the
    model: the bullet and "todo" rules, the marker strip, the line-index ids,
    and the quoting of CSV rows. */
module Scenarios {
  import opened Wrappers
  import opened Strings
  import opened ActionItems
  import opened Csv

  lemma SpacedTrim()
    ensures Trim("- milk") == "- milk"
  {
    assert LeadingSpace("- milk") == 0;
    assert TrailingSpace("- milk") == 0;
  }

  lemma SpacedStrip()
    ensures StripMarker("- milk") == "milk"
  {
    assert HasMarker("- milk");
    assert LeadingSpace(" milk") == 1;
  }

  /** "- milk" is a bullet and becomes "milk". */
  lemma SpacedBullet(index: nat)
    ensures Classify("- milk", index) == Some(Item(index, "milk"))
  {
    SpacedTrim();
    SpacedStrip();
    assert LooksLikeBullet("- milk");
  }

  lemma UnspacedTrim()
    ensures Trim("-milk") == "-milk"
  {
    assert LeadingSpace("-milk") == 0;
    assert TrailingSpace("-milk") == 0;
  }

  lemma UnspacedNotBullet()
    ensures !LooksLikeBullet("-milk")
  {
    assert "-milk"[1] == 'm';
  }

  lemma UnspacedNoTodo()
    ensures !ContainsTodo("-milk")
  {
    assert Lower("-milk") == "-milk";
    ContainedCharsOccur("-milk", "todo");
    assert 't' in "todo";
  }

  /** "-milk" has no space after its marker and no "todo": it is dropped. */
  lemma UnspacedBullet()
    ensures Classify("-milk", 0) == None
  {
    UnspacedTrim();
    UnspacedNotBullet();
    UnspacedNoTodo();
  }

  lemma TodoLeading()
    ensures LeadingSpace(" ask TODO") == 1
  {
    assert " ask TODO"[1..] == "ask TODO";
    assert LeadingSpace("ask TODO") == 0;
  }

  lemma TodoTrim()
    ensures Trim(" ask TODO") == "ask TODO"
  {
    TodoLeading();
    assert " ask TODO"[1..] == "ask TODO";
    assert TrailingSpace("ask TODO") == 0;
  }

  lemma TodoLower()
    ensures Lower("ask TODO") == "ask todo"
  {
    var s := "ask TODO";
    var r := Lower(s);
    assert r[0] == 'a' && r[1] == 's' && r[2] == 'k' && r[3] == ' ';
    assert r[4] == 't' && r[5] == 'o' && r[6] == 'd' && r[7] == 'o';
  }

  lemma TodoFound()
    ensures ContainsTodo("ask TODO")
  {
    TodoLower();
    var s := "ask todo";
    assert s[4..8] == "todo";
    assert OccursAt(s, "todo", 4);
    ContainsAt(s, "todo");
  }

  /** A line kept only for its "todo" keeps its text as trimmed. */
  lemma TodoLineUnstripped()
    ensures Classify(" ask TODO", 3) == Some(Item(3, "ask TODO"))
  {
    TodoTrim();
    TodoFound();
    assert IsActionLine(" ask TODO");
    assert !HasMarker("ask TODO");
    assert Describe(" ask TODO") == "ask TODO";
  }

  lemma TabTrim()
    ensures Trim("-\ttodo") == "-\ttodo"
  {
    assert LeadingSpace("-\ttodo") == 0;
    assert TrailingSpace("-\ttodo") == 0;
  }

  lemma TabTodo()
    ensures ContainsTodo("-\ttodo")
  {
    assert Lower("-\ttodo") == "-\ttodo";
    ContainsAt("-\ttodo", "todo");
    assert OccursAt("-\ttodo", "todo", 2);
  }

  lemma TabStrip()
    ensures StripMarker("-\ttodo") == "todo"
  {
    assert HasMarker("-\ttodo");
    assert LeadingSpace("\ttodo") == 1;
  }

  /** A tab after the marker does not make a bullet, but a line kept for
      its "todo" still loses the marker and the tab. */
  lemma TabAfterMarker()
    ensures !LooksLikeBullet("-\ttodo")
    ensures Classify("-\ttodo", 0) == Some(Item(0, "todo"))
  {
    assert "-\ttodo"[1] == '\t';
    TabTrim();
    TabTodo();
    TabStrip();
  }

  lemma GluedTrim()
    ensures Trim("-todo") == "-todo"
  {
    assert LeadingSpace("-todo") == 0;
    assert TrailingSpace("-todo") == 0;
  }

  lemma GluedTodo()
    ensures ContainsTodo("-todo")
  {
    var s := "-todo";
    assert Lower(s) == s;
    assert s[1..5] == "todo";
    assert OccursAt(s, "todo", 1);
    ContainsAt(s, "todo");
  }

  /** A marker glued to its text is not stripped: "-todo" is kept for its
      "todo" and its description keeps the dash. */
  lemma GluedMarkerKept()
    ensures Classify("-todo", 0) == Some(Item(0, "-todo"))
  {
    GluedAction();
    GluedDescription();
  }

  lemma GluedAction()
    ensures IsActionLine("-todo")
  {
    GluedTrim();
    GluedTodo();
  }

  lemma GluedDescription()
    ensures Describe("-todo") == "-todo"
  {
    GluedTrim();
    assert !HasMarker("-todo") by {
      assert "-todo"[1] == 't';
    }
  }

  /** A description with quotes: each one is doubled inside the row. */
  lemma QuotedEscape()
    ensures Escape("a \"b\"") == "a \"\"b\"\""
  {
    assert Escape("\"") == "\"\"";
    assert Escape("b\"") == "b\"\"";
  }
}
