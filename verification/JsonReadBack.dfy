/**
 * The printer's text is one spelling of a value, so the grammar reads it back.
 */
module JsonReadBack {
  import opened Strings
  import opened JsonString
  import opened JsonPieces
  import opened JsonValue
  import opened JsonGrammar
  import opened JsonSpelling

  /** White space in front of a member. */
  ghost function Lead(format: bool, d: nat): string {
    Pretty(format, "\n") + Pretty(format, Tabs(d))
  }

  /** The form that the printer gives a value, d levels deep. */
  ghost function Written(v: Value, format: bool, d: nat): Form
    decreases v, 1
  {
    match v
    case Null => Bare(v)
    case False => Bare(v)
    case True => Bare(v)
    case Number(token) => Numeral(token)
    case Text(s) => Chars(PiecesOf(s))
    case Array(_) => List("", WrittenItems(v, format, d + 1))
    case Object(_) => Table(Lead(format, d), WrittenMembers(v, format, d + 1))
  }

  ghost function WrittenItems(v: Value, format: bool, d: nat): (entries: seq<Entry>)
    requires v.Array?
    ensures |entries| == |v.items|
    ensures forall i :: 0 <= i < |entries| ==>
        entries[i] == Entry(if i == 0 then "" else Pretty(format, " "), Written(v.items[i], format, d), "")
    decreases v, 0
  {
    seq(|v.items|, i requires 0 <= i < |v.items| =>
      Entry(if i == 0 then "" else Pretty(format, " "), Written(v.items[i], format, d), ""))
  }

  ghost function WrittenMember(m: Member, last: bool, format: bool, d: nat): Field
    requires d > 0
    decreases m, 2
  {
    Field(Lead(format, d), PiecesOf(m.key), "", Pretty(format, "\t"), Written(m.value, format, d),
          if last then Lead(format, d - 1) else "")
  }

  ghost function WrittenMembers(v: Value, format: bool, d: nat): (fields: seq<Field>)
    requires v.Object? && d > 0
    ensures |fields| == |v.members|
    ensures forall i :: 0 <= i < |fields| ==> fields[i] == WrittenMember(v.members[i], i + 1 == |fields|, format, d)
    decreases v, 0
  {
    seq(|v.members|, i requires 0 <= i < |v.members| => WrittenMember(v.members[i], i + 1 == |v.members|, format, d))
  }

  // ---- The printer's lists ----

  ghost predicate ItemSlots(v: Value, slots: seq<Slot>, format: bool, d: nat) {
    && v.Array? && |slots| == |v.items|
    && forall k :: 0 <= k < |slots| ==>
         slots[k] == Slot(if k == 0 then "" else Pretty(format, " "), Render(v.items[k], format, d), "")
  }

  lemma {:induction false} ItemsJoined(v: Value, slots: seq<Slot>, i: nat, format: bool, d: nat)
    requires ItemSlots(v, slots, format, d) && i < |v.items|
    ensures RenderItems(v, i, format, d) == Join(slots, i, ']')
    decreases |v.items| - i
  {
    if i + 1 < |v.items| {
      ItemsJoined(v, slots, i + 1, format, d);
      Regroup(",", Pretty(format, " "), Join(slots, i + 1, ']'));
    }
    ItemJoined(v, slots, i, format, d);
  }

  lemma {:induction false} ItemJoined(v: Value, slots: seq<Slot>, i: nat, format: bool, d: nat)
    requires ItemSlots(v, slots, format, d) && i < |v.items|
    requires i + 1 < |v.items| ==>
        Separator(false, format) + RenderItems(v, i + 1, format, d) == "," + (Pretty(format, " ") + Join(slots, i + 1, ']'))
    ensures RenderItems(v, i, format, d) == Join(slots, i, ']')
  {
    var tail := if i + 1 == |slots| then "]" else "," + (slots[i + 1].lead + Join(slots, i + 1, ']'));
    assert "" + tail == tail;
    assert Separator(i + 1 == |v.items|, format) + RenderItems(v, i + 1, format, d) == tail;
  }

  /** A member's key, its colon and its value. */
  ghost function MemberText(m: Member, format: bool, d: nat): string {
    Quoted(m.key) + ((":" + Pretty(format, "\t")) + Render(m.value, format, d))
  }

  ghost predicate MemberSlots(v: Value, slots: seq<Slot>, format: bool, d: nat) {
    && v.Object? && |slots| == |v.members| && d > 0
    && forall k :: 0 <= k < |slots| ==>
         slots[k] == Slot(Lead(format, d), MemberText(v.members[k], format, d),
                          if k + 1 == |slots| then Lead(format, d - 1) else "")
  }

  lemma {:induction false} MembersJoined(v: Value, slots: seq<Slot>, i: nat, format: bool, d: nat)
    requires MemberSlots(v, slots, format, d) && i < |v.members|
    ensures RenderMembers(v, i, format, d) == Pretty(format, Tabs(d)) + Join(slots, i, '}')
    decreases |v.members| - i
  {
    if i + 1 < |v.members| {
      MembersJoined(v, slots, i + 1, format, d);
    }
    MemberRest(v, slots, i, format, d);
    var m := v.members[i];
    RegroupMember(Pretty(format, Tabs(d)), Quoted(m.key), ":" + Pretty(format, "\t"), Render(m.value, format, d),
                  Rest(slots, i, '}'));
  }

  lemma {:induction false} MemberRest(v: Value, slots: seq<Slot>, i: nat, format: bool, d: nat)
    requires MemberSlots(v, slots, format, d) && i < |v.members|
    requires i + 1 < |v.members| ==>
        RenderMembers(v, i + 1, format, d) == Pretty(format, Tabs(d)) + Join(slots, i + 1, '}')
    ensures MemberEnd(i + 1 == |v.members|, format) + RenderMembers(v, i + 1, format, d) == Rest(slots, i, '}')
  {
    var nl, tabs := Pretty(format, "\n"), Pretty(format, Tabs(d));
    if i + 1 < |v.members| {
      var others := Join(slots, i + 1, '}');
      Regroup(",", nl, tabs + others);
      Regroup(nl, tabs, others);
      assert "" + ("," + (Lead(format, d) + others)) == "," + (Lead(format, d) + others);
    } else {
      Regroup(nl, Pretty(format, Tabs(d - 1)), "}");
    }
  }

  lemma RegroupMember(a: string, b: string, c: string, v: string, r: string)
    ensures (a + (b + c)) + (v + r) == a + ((b + (c + v)) + r)
  {
  }

  // ---- The printer's text as a spelling ----

  lemma WhiteSpace(format: bool, d: nat)
    ensures AllBlank(Pretty(format, " ")) && AllBlank(Pretty(format, "\t")) && AllBlank(Lead(format, d))
  {
  }

  /** The printer's form of a value spells what the printer prints, and means the value. */
  ghost predicate Renders(f: Form, v: Value, scan: string -> nat, room: int, format: bool, d: nat) {
    Spelled(f) == Render(v, format, d) && Meant(f) == v && Fine(f, scan, room)
  }

  lemma {:induction false} WrittenRenders(v: Value, scan: string -> nat, room: int, format: bool, d: nat)
    requires Printable(v, scan, room)
    ensures Renders(Written(v, format, d), v, scan, room, format, d)
    decreases v, 1
  {
    match v
    case Null =>
    case False =>
    case True =>
    case Number(_) =>
    case Text(s) => QuotedIsPieces(s);
    case Array(_) => ItemsRender(v, scan, room, format, d);
    case Object(_) => MembersRender(v, scan, room, format, d);
  }

  lemma {:induction false} ItemsRender(v: Value, scan: string -> nat, room: int, format: bool, d: nat)
    requires v.Array? && Printable(v, scan, room)
    ensures Renders(Written(v, format, d), v, scan, room, format, d)
    decreases v, 0
  {
    var f, inner := Written(v, format, d), d + 1;
    WhiteSpace(format, d);
    forall i | 0 <= i < |v.items|
      ensures Renders(f.entries[i].form, v.items[i], scan, room - 1, format, inner)
    {
      WrittenRenders(v.items[i], scan, room - 1, format, inner);
    }
    assert Items(f) == v.items;
    ListSpelled(v, f, format, d, inner);
  }

  lemma {:induction false} ListSpelled(v: Value, f: Form, format: bool, d: nat, inner: nat)
    requires v.Array? && f == Written(v, format, d) && inner == d + 1
    requires forall i :: 0 <= i < |v.items| ==> Spelled(f.entries[i].form) == Render(v.items[i], format, inner)
    ensures Spelled(f) == Render(v, format, d)
  {
    if v.items != [] {
      var slots := EntrySlots(f);
      assert ItemSlots(v, slots, format, inner);
      ItemsJoined(v, slots, 0, format, inner);
      assert "" + Join(slots, 0, ']') == Join(slots, 0, ']');
    } else {
      assert "" + "]" == "]";
    }
  }

  lemma {:induction false} MembersRender(v: Value, scan: string -> nat, room: int, format: bool, d: nat)
    requires v.Object? && Printable(v, scan, room)
    ensures Renders(Written(v, format, d), v, scan, room, format, d)
    decreases v, 0
  {
    var f, inner, deeper := Written(v, format, d), d + 1, room - 1;
    forall i | 0 <= i < |v.members|
      ensures MemberRenders(f.fields[i], v.members[i], scan, deeper, format, inner)
    {
      OneMember(v.members[i], i + 1 == |v.members|, scan, deeper, format, inner);
    }
    TableRenders(v, f, scan, room, deeper, format, d, inner);
  }

  lemma MembersMeant(v: Value, f: Form, scan: string -> nat, deeper: int, format: bool, inner: nat)
    requires v.Object? && f.Table? && |f.fields| == |v.members|
    requires forall i :: 0 <= i < |v.members| ==> MemberRenders(f.fields[i], v.members[i], scan, deeper, format, inner)
    ensures Meant(f) == v
  {
    forall i | 0 <= i < |v.members| ensures Members(f)[i] == v.members[i] {
      assert MemberRenders(f.fields[i], v.members[i], scan, deeper, format, inner);
    }
    assert Members(f) == v.members;
  }

  lemma TableFine(v: Value, f: Form, scan: string -> nat, room: int, deeper: int, format: bool, inner: nat)
    requires v.Object? && f.Table? && |f.fields| == |v.members| && AllBlank(f.blank) && room > 0 && deeper == room - 1
    requires forall i :: 0 <= i < |v.members| ==> MemberRenders(f.fields[i], v.members[i], scan, deeper, format, inner)
    ensures Fine(f, scan, room)
  {
    forall i | 0 <= i < |f.fields| ensures FineField(f.fields[i], scan, deeper) {
      assert MemberRenders(f.fields[i], v.members[i], scan, deeper, format, inner);
    }
  }

  /** A table is printed member by member. */
  lemma {:induction false} TableRenders(v: Value, f: Form, scan: string -> nat, room: int, deeper: int, format: bool,
                                        d: nat, inner: nat)
    requires v.Object? && f == Written(v, format, d) && room > 0 && deeper == room - 1 && inner == d + 1
    requires forall i :: 0 <= i < |v.members| ==> MemberRenders(f.fields[i], v.members[i], scan, deeper, format, inner)
    ensures Renders(f, v, scan, room, format, d)
  {
    WhiteSpace(format, d);
    MembersMeant(v, f, scan, deeper, format, inner);
    TableFine(v, f, scan, room, deeper, format, inner);
    forall i | 0 <= i < |v.members| ensures FieldText(f.fields[i]) == MemberText(v.members[i], format, inner) {
      assert MemberRenders(f.fields[i], v.members[i], scan, deeper, format, inner);
    }
    TableSpelled(v, f, format, d, inner);
  }

  ghost predicate MemberRenders(x: Field, m: Member, scan: string -> nat, room: int, format: bool, d: nat) {
    && FieldText(x) == MemberText(m, format, d) && FineField(x, scan, room)
    && PiecesMeaning(x.key) == m.key && Meant(x.form) == m.value
  }

  lemma {:induction false} OneMember(m: Member, last: bool, scan: string -> nat, room: int, format: bool, d: nat)
    requires NoNul(m.key) && Printable(m.value, scan, room) && d > 0
    ensures MemberRenders(WrittenMember(m, last, format, d), m, scan, room, format, d)
    decreases m, 2
  {
    var x := WrittenMember(m, last, format, d);
    QuotedIsPieces(m.key);
    WrittenRenders(m.value, scan, room, format, d);
    WhiteSpace(format, d);
    WhiteSpace(format, d - 1);
    Regroup(":", Pretty(format, "\t"), Render(m.value, format, d));
    var tail := ":" + (Pretty(format, "\t") + Render(m.value, format, d));
    assert "" + tail == tail;
  }

  lemma {:induction false} TableSpelled(v: Value, f: Form, format: bool, d: nat, inner: nat)
    requires v.Object? && f == Written(v, format, d) && inner == d + 1
    requires forall i :: 0 <= i < |v.members| ==> FieldText(f.fields[i]) == MemberText(v.members[i], format, inner)
    ensures Spelled(f) == Render(v, format, d)
  {
    var nl := Pretty(format, "\n");
    if v.members == [] {
      Regroup("{", nl, Pretty(format, Tabs(d)) + "}");
      Regroup(nl, Pretty(format, Tabs(d)), "}");
    } else {
      var slots := FieldSlots(f);
      assert MemberSlots(v, slots, format, inner);
      MembersJoined(v, slots, 0, format, inner);
      Regroup("{", nl, Pretty(format, Tabs(inner)) + Join(slots, 0, '}'));
      Regroup(nl, Pretty(format, Tabs(inner)), Join(slots, 0, '}'));
    }
  }

  /** A value's printed text is read as that value. */
  lemma {:induction false} ReadsBack(input: Input, p: nat, v: Value, format: bool, d: nat, depth: nat, room: int, text: string)
    requires input.Ok() && Printable(v, input.scan, room) && room == input.nestingLimit - depth
    requires text == Render(v, format, d) && TextAt(input.content, p, text)
    ensures p < |input.content| && ReadValue(input, p, depth) == Got(v, p + |text|)
  {
    WrittenRenders(v, input.scan, room, format, d);
    FormRead(input, p, Written(v, format, d), depth, room, text);
  }
}
