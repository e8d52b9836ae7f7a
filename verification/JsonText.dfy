/**
 * Printing a JSON value to text, parsing text, and the two together.
 */
module JsonText {
  import opened JsonString
  import opened JsonValue
  import opened JsonGrammar
  import opened JsonParse
  import opened JsonPrint
  import opened JsonSpelling
  import opened JsonReadBack

  datatype Maybe<T> = Nothing | Just(value: T)

  const BOM: string := [0xEF as char, 0xBB as char, 0xBF as char]

  /** print: a value as text, formatted or not. */
  method Print(v: Value, format: bool, reallocate: bool) returns (result: Maybe<string>)
    requires Clean(v)
    ensures result.Just? ==> result.value == Render(v, format, 0)
    ensures |Render(v, format, 0)| + 2 <= INT_MAX ==> result.Just?
  {
    var b := new PrintBuffer(DEFAULT_BUFFER_SIZE, false, format, reallocate);
    assert b.Printed() == "";
    var ok := b.PrintElement(v);
    if !ok {
      return Nothing;
    }
    result := Just(b.buffer[..b.offset]);
    assert "" + Render(v, format, 0) == Render(v, format, 0);
  }

  /** text as a C string at the start of b. */
  predicate HoldsText(b: seq<char>, text: string) {
    |text| < |b| && b[..|text|] == text && b[|text|] == NUL
  }

  /** cJSON_PrintBuffered, which starts with a buffer of the size asked for, be it empty. */
  method PrintBuffered(v: Value, prebuffer: int, format: bool, reallocate: bool) returns (printed: array?<char>)
    requires Clean(v)
    ensures printed != null ==> fresh(printed) && prebuffer >= 0 && HoldsText(printed[..], Render(v, format, 0))
    ensures 0 <= prebuffer && |Render(v, format, 0)| + 2 <= INT_MAX ==> printed != null
  {
    if prebuffer < 0 {
      return null;
    }
    var b := new PrintBuffer(prebuffer, false, format, reallocate);
    var ok := b.PrintValue(v);
    printed := if ok then b.buffer else null;
  }

  /** cJSON_PrintPreallocated: two bytes more than the text are enough. */
  method PrintPreallocated(v: Value, buffer: array<char>, format: bool) returns (ok: bool)
    requires Clean(v)
    modifies buffer
    ensures ok ==> HoldsText(buffer[..], Render(v, format, 0))
    ensures |Render(v, format, 0)| + 2 <= buffer.Length && |Render(v, format, 0)| + 2 <= INT_MAX ==> ok
  {
    var b := new PrintBuffer.Preallocated(buffer, format);
    ok := b.PrintValue(v);
  }

  /** Where a text starts, behind a byte order mark. */
  function Start(content: string): nat {
    if 4 < |content| && content[..3] == BOM then 3 else 0
  }

  /** The value that a C string means; when it must be terminated, only white space may follow. */
  ghost function Meaning(input: Input, requireTerminated: bool): Maybe<Value>
    requires input.Ok()
  {
    match ReadValue(input, Skip(input.content, Start(input.content)), 0)
    case Fail => Nothing
    case Got(v, next) =>
      if requireTerminated && input.content[Skip(input.content, next)] != NUL then Nothing else Just(v)
  }

  /** cJSON_ParseWithOpts, for a C string. */
  method Parse(text: string, scan: string -> nat, nestingLimit: nat, requireTerminated: bool) returns (result: Maybe<Value>)
    requires NoNul(text) && forall t :: scan(t) <= |t|
    ensures result == Meaning(Input(text + [NUL], scan, nestingLimit), requireTerminated)
  {
    var b := new ParseBuffer(text, scan, nestingLimit);
    b.offset := Start(b.content);
    b.SkipWhitespace();
    var ok, value := b.ParseValue();
    if !ok {
      return Nothing;
    }
    if requireTerminated {
      b.SkipWhitespace();
      if b.content[b.offset] != NUL {
        return Nothing;
      }
    }
    result := Just(value);
  }

  /** A text that must be terminated means a value only if nothing but white space follows it. */
  lemma NothingBehind(text: string, scan: string -> nat, nestingLimit: nat)
    requires NoNul(text) && forall t :: scan(t) <= |t|
    ensures var input := Input(text + [NUL], scan, nestingLimit);
      Meaning(input, true).Just? <==>
        var r := ReadValue(input, Skip(input.content, Start(input.content)), 0);
        r.Got? && Blank(text, r.next, |text|)
  {
    var input := Input(text + [NUL], scan, nestingLimit);
    var r := ReadValue(input, Skip(input.content, Start(input.content)), 0);
    if r.Got? {
      var end := Skip(input.content, r.next);
      SkipBlank(input.content, r.next);
      assert forall k :: 0 <= k < |text| ==> input.content[k] == text[k];
      if end < |text| {
        assert text[end] > ' ';
      }
    }
  }

  // ---- Texts in any spelling ----

  lemma {:induction false} SkipToEnd(content: string, p: nat)
    requires p < |content| && forall k :: p <= k < |content| ==> content[k] <= ' '
    ensures Skip(content, p) + 1 == |content|
    decreases |content| - p
  {
    if p + 1 < |content| {
      SkipToEnd(content, p + 1);
    }
  }

  /** A spelled value, with white space around it, and perhaps a byte order mark in front. */
  ghost function Document(f: Form, mark: bool, lead: string, trail: string): string {
    (if mark then BOM else "") + (lead + (Spelled(f) + trail))
  }

  /** Where the parts of a text stand. */
  lemma PartsStand(content: string, front: string, lead: string, text: string, trail: string, n: nat, e: nat)
    requires content == (front + (lead + (text + trail))) + [NUL] && n == |front| + |lead| && e == n + |text|
    ensures At(content, |front|, lead) && At(content, n, text) && e + |trail| + 1 == |content|
    ensures forall k :: e <= k < |content| - 1 ==> content[k] == trail[k - e]
  {
  }

  /** Where the value stands in a document. */
  lemma {:induction false} DocumentStarts(f: Form, mark: bool, lead: string, trail: string, scan: string -> nat, room: int,
                                          content: string)
    returns (q: nat, e: nat)
    requires Fine(f, scan, room) && AllBlank(lead) && AllBlank(trail)
    requires content == Document(f, mark, lead, trail) + [NUL]
    ensures q < e == q + |Spelled(f)| < |content| && Skip(content, Start(content)) == q
    ensures TextAt(content, q, Spelled(f))
    ensures forall k :: e <= k < |content| ==> content[k] <= ' '
  {
    var front, body := if mark then BOM else "", lead + (Spelled(f) + trail);
    q, e := |front| + |lead|, |front| + |lead| + |Spelled(f)|;
    PartsStand(content, front, lead, Spelled(f), trail, q, e);
    FormStarts(f, scan, room);
    AtBlank(content, |front|, lead);
    AtChar(content, q, Spelled(f), 0);
    assert body[0] == if lead == "" then Spelled(f)[0] else lead[0];
    StartIs(content, mark, body);
    SkipIs(content, |front|, q);
  }

  /** Nothing that may start a document looks like the mark. */
  lemma StartIs(content: string, mark: bool, body: string)
    requires body != "" && body[0] != BOM[0] && content == (if mark then BOM else "") + body + [NUL]
    ensures Start(content) == if mark then 3 else 0
  {
    if mark {
      assert content[..3] == BOM;
    } else {
      assert content[0] == body[0];
      assert 4 < |content| ==> content[..3][0] == body[0];
    }
  }

  /**
   * Every JSON text, with any white space between its tokens and any escapes in its strings,
   * means the value that it spells, and nothing follows it.
   */
  lemma {:induction false} MeaningOfSpelling(f: Form, mark: bool, lead: string, trail: string, scan: string -> nat,
                                             nestingLimit: nat, requireTerminated: bool)
    requires Fine(f, scan, nestingLimit) && AllBlank(lead) && AllBlank(trail) && forall t :: scan(t) <= |t|
    ensures Meaning(Input(Document(f, mark, lead, trail) + [NUL], scan, nestingLimit), requireTerminated) == Just(Meant(f))
  {
    var content := Document(f, mark, lead, trail) + [NUL];
    var input := Input(content, scan, nestingLimit);
    var q, e := DocumentStarts(f, mark, lead, trail, scan, nestingLimit, content);
    FormRead(input, q, f, 0, nestingLimit, Spelled(f));
    SkipToEnd(content, e);
    MeaningIs(input, q, e, Meant(f), requireTerminated);
  }

  lemma MeaningIs(input: Input, q: nat, e: nat, v: Value, requireTerminated: bool)
    requires input.Ok() && Skip(input.content, Start(input.content)) == q < |input.content| && e < |input.content|
    requires ReadValue(input, q, 0) == Got(v, e) && Skip(input.content, e) + 1 == |input.content|
    ensures Meaning(input, requireTerminated) == Just(v)
  {
  }

  // ---- Numbers that are too long ----

  /** A text that starts like a number is read as one. */
  lemma {:induction false} NumberStarts(input: Input)
    requires input.Ok() && (input.content[0] == '-' || '0' <= input.content[0] <= '9')
    ensures Start(input.content) == 0 && Skip(input.content, 0) == 0
    ensures ReadValue(input, 0, 0) == ReadNumber(input, 0)
  {
    assert 4 < |input.content| ==> input.content[..3][0] == input.content[0];
    if WordAt(input.content, 0).Word? {
      WordIs(input.content, 0);
    }
  }

  /** No more of a number is read than parse_number copies, and what is left over is no white space. */
  lemma {:induction false} LongNumberCut(token: string, content: string, scan: string -> nat, nestingLimit: nat)
    requires |token| > NUMBER_SPACE && (token[0] == '-' || '0' <= token[0] <= '9') && content == token + [NUL]
    requires (forall i :: 0 <= i < |token| ==> NumberChar(token[i])) && forall t :: scan(t) <= |t|
    ensures Meaning(Input(content, scan, nestingLimit), true) == Nothing
  {
    var input := Input(content, scan, nestingLimit);
    assert forall i :: 0 <= i < |token| ==> content[i] == token[i];
    NumberStarts(input);
    var r := ReadNumber(input, 0);
    if r.Got? {
      assert r.next <= NUMBER_SPACE && Skip(content, r.next) == r.next;
    }
  }

  /** A number on its own is understood exactly when it has no more than 63 characters. */
  lemma {:induction false} NumberUnderstood(token: string, scan: string -> nat, nestingLimit: nat)
    requires token != "" && (token[0] == '-' || '0' <= token[0] <= '9') && scan(token) == |token|
    requires (forall i :: 0 <= i < |token| ==> NumberChar(token[i])) && forall t :: scan(t) <= |t|
    ensures Meaning(Input(token + [NUL], scan, nestingLimit), true) == Just(Number(token)) <==> |token| <= NUMBER_SPACE
  {
    if |token| <= NUMBER_SPACE {
      MeaningOfSpelling(Numeral(token), false, "", "", scan, nestingLimit, true);
      assert Document(Numeral(token), false, "", "") == token;
    } else {
      LongNumberCut(token, token + [NUL], scan, nestingLimit);
    }
  }

  /** A printed text means the value that was printed, and nothing follows it. */
  lemma {:induction false} MeaningOfPrinted(v: Value, scan: string -> nat, nestingLimit: nat, format: bool,
                                            requireTerminated: bool)
    requires Printable(v, scan, nestingLimit) && forall t :: scan(t) <= |t|
    ensures Meaning(Input(Render(v, format, 0) + [NUL], scan, nestingLimit), requireTerminated) == Just(v)
  {
    var f := Written(v, format, 0);
    WrittenRenders(v, scan, nestingLimit, format, 0);
    MeaningOfSpelling(f, false, "", "", scan, nestingLimit, requireTerminated);
    assert Document(f, false, "", "") == Render(v, format, 0);
  }

  /** No two values have the same text, formatted or not. */
  lemma TextsDiffer(v: Value, w: Value, scan: string -> nat, nestingLimit: nat, format: bool, format': bool)
    requires Printable(v, scan, nestingLimit) && Printable(w, scan, nestingLimit) && forall t :: scan(t) <= |t|
    requires Render(v, format, 0) == Render(w, format', 0)
    ensures v == w
  {
    MeaningOfPrinted(v, scan, nestingLimit, format, true);
    MeaningOfPrinted(w, scan, nestingLimit, format', true);
  }

  /** Whatever value is printed, formatted or not, parsing the text gives it back. */
  method RoundTrip(v: Value, scan: string -> nat, nestingLimit: nat, format: bool, reallocate: bool, requireTerminated: bool)
    returns (result: Maybe<Value>)
    requires Printable(v, scan, nestingLimit) && forall t :: scan(t) <= |t|
    ensures |Render(v, format, 0)| + 2 <= INT_MAX ==> result == Just(v)
    ensures result.Just? ==> result == Just(v)
  {
    PrintableIsClean(v, scan, nestingLimit);
    RenderNoNul(v, format, 0);
    var text := Print(v, format, reallocate);
    if text.Nothing? {
      return Nothing;
    }
    MeaningOfPrinted(v, scan, nestingLimit, format, requireTerminated);
    result := Parse(text.value, scan, nestingLimit, requireTerminated);
  }
}
