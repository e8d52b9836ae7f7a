/**
 * JSON texts in any spelling: white space between all tokens, and strings
 * with any choice of escapes. The grammar reads each of them as its value.
 */
module JsonSpelling {
  import opened JsonString
  import opened JsonPieces
  import opened JsonValue
  import opened JsonGrammar

  // ---- Where texts stand ----

  ghost predicate AllBlank(s: string) {
    forall k :: 0 <= k < |s| ==> s[k] <= ' '
  }

  lemma AtBlank(content: string, i: nat, s: string)
    requires At(content, i, s) && AllBlank(s)
    ensures Blank(content, i, i + |s|)
  {
    forall k | i <= k < i + |s| ensures content[k] <= ' ' {
      AtChar(content, i, s, k - i);
    }
  }

  lemma {:induction false} SkipIs(content: string, p: nat, q: nat)
    requires Blank(content, p, q) && q < |content| && content[q] > ' '
    ensures p < |content| && Skip(content, p) == q
    decreases q - p
  {
    if p < q {
      SkipIs(content, p + 1, q);
    }
  }

  /** White space, then something that is none. */
  lemma BlankThen(content: string, p: nat, blank: string, ink: string) returns (q: nat)
    requires At(content, p, blank + ink) && AllBlank(blank) && ink != "" && ink[0] > ' '
    ensures q == p + |blank| < |content| && Blank(content, p, q) && At(content, q, ink) && content[q] == ink[0]
    ensures p < |content| && Skip(content, p) == q
  {
    AtSplit(content, p, blank, ink);
    AtBlank(content, p, blank);
    q := p + |blank|;
    AtChar(content, q, ink, 0);
    SkipIs(content, p, q);
  }

  /** A text at i, with a character behind it that is no part of a number. */
  ghost predicate TextAt(content: string, i: nat, text: string) {
    At(content, i, text) && i + |text| < |content| && !NumberChar(content[i + |text|])
  }

  /** A text that starts neither with a blank nor with a closing character. */
  ghost predicate Inked(text: string) {
    text != "" && text[0] > ' ' && text[0] != ']' && text[0] != '}'
  }

  // ---- Lists ----

  /** The text of an element, with the white space around it. */
  datatype Slot = Slot(lead: string, text: string, trail: string)

  /** What stands behind the text of element i: the end of the list, or a comma and what follows. */
  ghost function Rest(slots: seq<Slot>, i: nat, close: char): string
    requires i < |slots|
    decreases |slots| - i, 0
  {
    slots[i].trail + if i + 1 == |slots| then [close] else "," + (slots[i + 1].lead + Join(slots, i + 1, close))
  }

  /** The elements from the text of element i on, as a list. */
  ghost function Join(slots: seq<Slot>, i: nat, close: char): string
    requires i < |slots|
    decreases |slots| - i, 1
  {
    slots[i].text + Rest(slots, i, close)
  }

  /** Wherever the text of x stands, from low on, with nothing but blanks before it, one finds x. */
  ghost predicate Understands<T>(content: string, one: nat -> Parsed<T>, low: nat, x: T, text: string) {
    forall s: nat, q: nat {:trigger Blank(content, s, q), TextAt(content, q, text)} ::
      low <= s && Blank(content, s, q) && TextAt(content, q, text) ==> one(s) == Got(x, q + |text|)
  }

  ghost predicate UnderstoodAt<T>(content: string, one: nat -> Parsed<T>, low: nat, xs: seq<T>, slots: seq<Slot>, k: nat)
    requires k < |xs| == |slots|
  {
    && AllBlank(slots[k].lead) && AllBlank(slots[k].trail) && Inked(slots[k].text)
    && Understands(content, one, low, xs[k], slots[k].text)
  }

  ghost predicate AllUnderstood<T>(content: string, one: nat -> Parsed<T>, low: nat, xs: seq<T>, slots: seq<Slot>) {
    && |xs| == |slots|
    && forall k {:trigger UnderstoodAt(content, one, low, xs, slots, k)} ::
      0 <= k < |xs| ==> UnderstoodAt(content, one, low, xs, slots, k)
  }

  /** Behind an element that ends at e: blanks up to mark, then the closing character or a comma and the others. */
  ghost predicate Follows(content: string, e: nat, mark: nat, slots: seq<Slot>, i: nat, close: char, stop: nat)
    requires i < |slots|
  {
    && e < |content| && !NumberChar(content[e]) && Blank(content, e, mark) && mark < |content|
    && if i + 1 == |slots| then content[mark] == close && mark + 1 == stop
       else
         var others := slots[i + 1].lead + Join(slots, i + 1, close);
         content[mark] == ',' && At(content, mark + 1, others) && mark + 1 + |others| == stop
  }

  lemma {:induction false} RestStands(content: string, e: nat, slots: seq<Slot>, i: nat, close: char, stop: nat)
    returns (mark: nat)
    requires i < |slots| && AllBlank(slots[i].trail) && (close == ']' || close == '}')
    requires At(content, e, Rest(slots, i, close)) && stop == e + |Rest(slots, i, close)|
    ensures Follows(content, e, mark, slots, i, close, stop)
  {
    var tail := if i + 1 == |slots| then [close] else "," + (slots[i + 1].lead + Join(slots, i + 1, close));
    mark := BlankThen(content, e, slots[i].trail, tail);
    if i + 1 < |slots| {
      AtSplit(content, mark, ",", slots[i + 1].lead + Join(slots, i + 1, close));
    }
  }

  /** An element at p, and what follows it. */
  lemma {:induction false} ElementStands(content: string, p: nat, slots: seq<Slot>, i: nat, close: char, stop: nat)
    returns (e: nat, mark: nat)
    requires i < |slots| && AllBlank(slots[i].trail) && (close == ']' || close == '}')
    requires At(content, p, Join(slots, i, close)) && stop == p + |Join(slots, i, close)|
    ensures TextAt(content, p, slots[i].text) && e == p + |slots[i].text|
    ensures Follows(content, e, mark, slots, i, close, stop)
  {
    AtSplit(content, p, slots[i].text, Rest(slots, i, close));
    e := p + |slots[i].text|;
    mark := RestStands(content, e, slots, i, close, stop);
  }

  lemma LastElement<T>(content: string, one: nat -> Parsed<T>, close: char, s: nat, x: T, e: nat, mark: nat)
    requires Ended(content) && s < e && Advances(content, one, s) && (close == ']' || close == '}')
    requires Blank(content, e, mark) && mark < |content| && content[mark] == close && one(s) == Got(x, e)
    ensures ReadList(content, one, close, s) == Got([x], mark + 1)
  {
    SkipIs(content, e, mark);
  }

  lemma ElementAndOthers<T>(content: string, one: nat -> Parsed<T>, close: char, s: nat, x: T, e: nat, mark: nat)
    requires Ended(content) && s < e && Advances(content, one, s) && close != NUL
    requires Blank(content, e, mark) && mark + 1 < |content| && content[mark] == ',' && one(s) == Got(x, e)
    ensures ReadList(content, one, close, s) == After(x, ReadList(content, one, close, mark + 1))
  {
    SkipIs(content, e, mark);
  }

  lemma FromIndex<T>(s: seq<T>, i: nat)
    requires i < |s|
    ensures s[i..] == [s[i]] + s[i + 1..] && s[0..] == s
    ensures i + 1 == |s| ==> s[i..] == [s[i]]
  {
  }

  /** One element is found, and what follows it. */
  lemma {:induction false} ElementRead<T>(content: string, one: nat -> Parsed<T>, low: nat, s: nat, p: nat,
                                          xs: seq<T>, slots: seq<Slot>, i: nat, close: char, stop: nat)
    returns (e: nat, mark: nat)
    requires AllUnderstood(content, one, low, xs, slots) && low <= s && i < |xs| && Blank(content, s, p)
    requires At(content, p, Join(slots, i, close)) && stop == p + |Join(slots, i, close)| && (close == ']' || close == '}')
    ensures s < e && one(s) == Got(xs[i], e) && Follows(content, e, mark, slots, i, close, stop)
  {
    assert UnderstoodAt(content, one, low, xs, slots, i);
    e, mark := ElementStands(content, p, slots, i, close, stop);
  }

  /** The elements from index i on, whose text is at p, with nothing but blanks before it. */
  lemma {:induction false} ListRead<T>(content: string, one: nat -> Parsed<T>, low: nat, s: nat, p: nat,
                                       xs: seq<T>, slots: seq<Slot>, i: nat, close: char, stop: nat)
    requires Ended(content) && Advances(content, one, low) && AllUnderstood(content, one, low, xs, slots)
    requires low <= s && i < |xs| && Blank(content, s, p) && (close == ']' || close == '}')
    requires At(content, p, Join(slots, i, close)) && stop == p + |Join(slots, i, close)|
    ensures s < |content| && ReadList(content, one, close, s) == Got(xs[i..], stop)
    decreases |xs| - i, 1
  {
    var e, mark := ElementRead(content, one, low, s, p, xs, slots, i, close, stop);
    if i + 1 == |xs| {
      LastElement(content, one, close, s, xs[i], e, mark);
      FromIndex(xs, i);
    } else {
      OthersRead(content, one, low, xs, slots, i, close, e, mark, mark + 1, stop);
      ElementAndOthers(content, one, close, s, xs[i], e, mark);
    }
  }

  lemma {:induction false} OthersRead<T>(content: string, one: nat -> Parsed<T>, low: nat, xs: seq<T>, slots: seq<Slot>,
                                         i: nat, close: char, e: nat, mark: nat, s: nat, stop: nat)
    requires Ended(content) && Advances(content, one, low) && AllUnderstood(content, one, low, xs, slots)
    requires low <= e && s == mark + 1 && i + 1 < |xs| && Follows(content, e, mark, slots, i, close, stop)
    requires close == ']' || close == '}'
    ensures s < |content| && After(xs[i], ReadList(content, one, close, s)) == Got(xs[i..], stop)
    decreases |xs| - i, 0
  {
    assert UnderstoodAt(content, one, low, xs, slots, i + 1);
    var p := BlankThen(content, s, slots[i + 1].lead, Join(slots, i + 1, close));
    ListRead(content, one, low, s, p, xs, slots, i + 1, close, stop);
    FromIndex(xs, i);
  }

  /** A whole list behind its opening character. */
  lemma {:induction false} WholeList<T>(content: string, one: nat -> Parsed<T>, s: nat, xs: seq<T>, slots: seq<Slot>,
                                        close: char, stop: nat) returns (first: nat)
    requires Ended(content) && Advances(content, one, s) && AllUnderstood(content, one, s, xs, slots) && xs != []
    requires (close == ']' || close == '}') && At(content, s, slots[0].lead + Join(slots, 0, close))
    requires stop == s + |slots[0].lead + Join(slots, 0, close)|
    ensures s <= first < |content| && Skip(content, s) == first && content[first] != ']' && content[first] != '}'
    ensures ReadList(content, one, close, first) == Got(xs, stop)
  {
    assert UnderstoodAt(content, one, s, xs, slots, 0);
    first := BlankThen(content, s, slots[0].lead, Join(slots, 0, close));
    ListRead(content, one, s, first, first, xs, slots, 0, close, stop);
    FromIndex(xs, 0);
  }

  // ---- Forms ----

  /** A way of writing a value; blank is what stands between the brackets of an empty list. */
  datatype Form =
    | Bare(word: Value)
    | Numeral(token: string)
    | Chars(pieces: seq<Piece>)
    | List(blank: string, entries: seq<Entry>)
    | Table(blank: string, fields: seq<Field>)

  datatype Entry = Entry(lead: string, form: Form, trail: string)

  /** before and after are the white space around the colon. */
  datatype Field = Field(lead: string, key: seq<Piece>, before: string, after: string, form: Form, trail: string)

  function WordText(v: Value): string {
    match v
    case Null => "null"
    case False => "false"
    case _ => "true"
  }

  ghost function Spelled(f: Form): string
    decreases f, 2
  {
    match f
    case Bare(v) => WordText(v)
    case Numeral(token) => token
    case Chars(xs) => InQuotes(xs)
    case List(blank, entries) => "[" + ListBody(f)
    case Table(blank, fields) => "{" + TableBody(f)
  }

  ghost function ListBody(f: Form): string
    requires f.List?
    decreases f, 1
  {
    if f.entries == [] then f.blank + "]" else f.entries[0].lead + Join(EntrySlots(f), 0, ']')
  }

  ghost function TableBody(f: Form): string
    requires f.Table?
    decreases f, 1
  {
    if f.fields == [] then f.blank + "}" else f.fields[0].lead + Join(FieldSlots(f), 0, '}')
  }

  ghost function EntrySlots(f: Form): (slots: seq<Slot>)
    requires f.List?
    ensures |slots| == |f.entries|
    ensures forall i :: 0 <= i < |slots| ==>
        slots[i] == Slot(f.entries[i].lead, Spelled(f.entries[i].form), f.entries[i].trail)
    decreases f, 0
  {
    seq(|f.entries|, i requires 0 <= i < |f.entries| =>
      Slot(f.entries[i].lead, Spelled(f.entries[i].form), f.entries[i].trail))
  }

  ghost function FieldText(x: Field): string
    decreases x, 3
  {
    InQuotes(x.key) + (x.before + (":" + (x.after + Spelled(x.form))))
  }

  ghost function FieldSlots(f: Form): (slots: seq<Slot>)
    requires f.Table?
    ensures |slots| == |f.fields|
    ensures forall i :: 0 <= i < |slots| ==> slots[i] == Slot(f.fields[i].lead, FieldText(f.fields[i]), f.fields[i].trail)
    decreases f, 0
  {
    seq(|f.fields|, i requires 0 <= i < |f.fields| => Slot(f.fields[i].lead, FieldText(f.fields[i]), f.fields[i].trail))
  }

  ghost function Meant(f: Form): Value {
    match f
    case Bare(v) => v
    case Numeral(token) => Number(token)
    case Chars(xs) => Text(PiecesMeaning(xs))
    case List(_, _) => Array(Items(f))
    case Table(_, _) => Object(Members(f))
  }

  ghost function Items(f: Form): (items: seq<Value>)
    requires f.List?
    ensures |items| == |f.entries| && forall i :: 0 <= i < |items| ==> items[i] == Meant(f.entries[i].form)
    decreases f, 0
  {
    seq(|f.entries|, i requires 0 <= i < |f.entries| => Meant(f.entries[i].form))
  }

  ghost function Members(f: Form): (members: seq<Member>)
    requires f.Table?
    ensures |members| == |f.fields|
    ensures forall i :: 0 <= i < |members| ==>
        members[i] == Member(PiecesMeaning(f.fields[i].key), Meant(f.fields[i].form))
    decreases f, 0
  {
    seq(|f.fields|, i requires 0 <= i < |f.fields| => Member(PiecesMeaning(f.fields[i].key), Meant(f.fields[i].form)))
  }

  /** strtod reads all of the token, which is no longer than parse_number copies. */
  ghost predicate Numeric(token: string, scan: string -> nat) {
    && 0 < |token| <= NUMBER_SPACE && (forall i :: 0 <= i < |token| ==> NumberChar(token[i]))
    && (token[0] == '-' || '0' <= token[0] <= '9') && scan(token) == |token|
  }

  /** White space where it may stand, good strings and numbers, and no more than room levels of nesting. */
  ghost predicate Fine(f: Form, scan: string -> nat, room: int) {
    match f
    case Bare(v) => v.Null? || v.False? || v.True?
    case Numeral(token) => Numeric(token, scan)
    case Chars(xs) => AllGood(xs)
    case List(blank, entries) =>
      && room > 0 && AllBlank(blank)
      && forall i :: 0 <= i < |entries| ==> FineEntry(entries[i], scan, room - 1)
    case Table(blank, fields) =>
      && room > 0 && AllBlank(blank)
      && forall i :: 0 <= i < |fields| ==> FineField(fields[i], scan, room - 1)
  }

  ghost predicate FineEntry(x: Entry, scan: string -> nat, room: int) {
    AllBlank(x.lead) && AllBlank(x.trail) && Fine(x.form, scan, room)
  }

  ghost predicate FineField(x: Field, scan: string -> nat, room: int) {
    && AllBlank(x.lead) && AllGood(x.key) && AllBlank(x.before) && AllBlank(x.after)
    && AllBlank(x.trail) && Fine(x.form, scan, room)
  }

  /** The first character of a form's text. */
  predicate StartsLike(f: Form, c: char) {
    match f
    case Bare(v) => c == WordText(v)[0]
    case Numeral(_) => c == '-' || '0' <= c <= '9'
    case Chars(_) => c == QUOTE
    case List(_, _) => c == '['
    case Table(_, _) => c == '{'
  }

  lemma FormStarts(f: Form, scan: string -> nat, room: int)
    requires Fine(f, scan, room)
    ensures Inked(Spelled(f)) && StartsLike(f, Spelled(f)[0])
  {
  }

  /** The first character tells the kinds of values apart, and a word is read as its value. */
  lemma FirstChar(content: string, p: nat, f: Form, scan: string -> nat, room: int)
    requires Fine(f, scan, room) && At(content, p, Spelled(f))
    ensures p < |content| && StartsLike(f, content[p])
    ensures WordAt(content, p) == if f.Bare? then Word(f.word, |Spelled(f)|) else NoWord
  {
    FormStarts(f, scan, room);
    AtChar(content, p, Spelled(f), 0);
    if WordAt(content, p).Word? {
      WordIs(content, p);
    }
  }

  // ---- Reading numbers and strings ----

  /** The collected characters are the token: it is all number characters, and what follows is none. */
  lemma TokenEnds(content: string, p: nat, token: string, n: nat)
    requires TextAt(content, p, token) && |token| <= NUMBER_SPACE
    requires forall k :: 0 <= k < |token| ==> NumberChar(token[k])
    requires n <= NUMBER_SPACE && p + n < |content| && forall k :: p <= k < p + n ==> NumberChar(content[k])
    requires n == NUMBER_SPACE || !NumberChar(content[p + n])
    ensures n == |token| && content[p..p + n] == token
  {
    if n < |token| {
      AtChar(content, p, token, n);
    }
  }

  lemma TokenRun(content: string, p: nat, token: string, scan: string -> nat)
    requires Ended(content) && Numeric(token, scan) && TextAt(content, p, token)
    ensures p < |content| && NumberRun(content, p, NUMBER_SPACE) == |token| && content[p..p + |token|] == token
  {
    var n := NumberRun(content, p, NUMBER_SPACE);
    TokenEnds(content, p, token, n);
  }

  lemma NumeralRead(input: Input, p: nat, token: string)
    requires input.Ok() && Numeric(token, input.scan) && TextAt(input.content, p, token)
    ensures p < |input.content| && ReadOther(input, p) == Got(Number(token), p + |token|)
  {
    TokenRun(input.content, p, token, input.scan);
    AtChar(input.content, p, token, 0);
    assert token[..|token|] == token;
  }

  lemma StringRead(content: string, p: nat, xs: seq<Piece>)
    requires Ended(content) && AllGood(xs) && At(content, p, InQuotes(xs))
    ensures p < |content| && content[p] == QUOTE
    ensures ReadString(content, p) == Got(PiecesMeaning(xs), p + |InQuotes(xs)|)
  {
    StringRoundTrip(content, p, xs);
  }

  // ---- Reading forms ----

  lemma EmptyRead(content: string, s: nat, blank: string, close: string)
    requires |close| == 1 && close[0] > ' ' && AllBlank(blank) && At(content, s, blank + close)
    ensures s < |content| && Skip(content, s) + 1 == s + |blank + close| && content[Skip(content, s)] == close[0]
  {
    var q := BlankThen(content, s, blank, close);
  }

  /** However a value is spelled, it is read as what it means. */
  lemma {:induction false} FormRead(input: Input, p: nat, f: Form, depth: nat, room: int, text: string)
    requires input.Ok() && Fine(f, input.scan, room) && room == input.nestingLimit - depth
    requires text == Spelled(f) && TextAt(input.content, p, text)
    ensures p < |input.content| && ReadValue(input, p, depth) == Got(Meant(f), p + |text|)
    decreases f, 3
  {
    if f.List? || f.Table? {
      NestedRead(input, p, p + 1, f, depth, room, p + |text|);
    } else {
      FlatRead(input, p, f, depth, room, text);
    }
  }

  lemma {:induction false} FlatRead(input: Input, p: nat, f: Form, depth: nat, room: int, text: string)
    requires input.Ok() && Fine(f, input.scan, room) && !f.List? && !f.Table?
    requires text == Spelled(f) && TextAt(input.content, p, text)
    ensures p < |input.content| && ReadValue(input, p, depth) == Got(Meant(f), p + |text|)
  {
    FirstChar(input.content, p, f, input.scan, room);
    if f.Numeral? {
      NumeralRead(input, p, f.token);
    } else if f.Chars? {
      StringRead(input.content, p, f.pieces);
    }
  }

  /** An opening character, and the body of the list behind it. */
  lemma {:induction false} ListStarts(input: Input, p: nat, s: nat, f: Form, depth: nat, room: int, stop: nat)
    requires input.Ok() && Fine(f, input.scan, room) && room == input.nestingLimit - depth && f.List?
    requires At(input.content, p, Spelled(f)) && s == p + 1 && stop == p + |Spelled(f)| < |input.content|
    ensures s < |input.content| && At(input.content, s, ListBody(f)) && stop == s + |ListBody(f)|
    ensures ReadValue(input, p, depth) == ReadArray(input.content, Inside(input, p, depth), s)
  {
    FirstChar(input.content, p, f, input.scan, room);
    AtSplit(input.content, p, "[", ListBody(f));
    NestedIs(input, p, depth);
  }

  lemma {:induction false} TableStarts(input: Input, p: nat, s: nat, f: Form, depth: nat, room: int, stop: nat)
    requires input.Ok() && Fine(f, input.scan, room) && room == input.nestingLimit - depth && f.Table?
    requires At(input.content, p, Spelled(f)) && s == p + 1 && stop == p + |Spelled(f)| < |input.content|
    ensures s < |input.content| && At(input.content, s, TableBody(f)) && stop == s + |TableBody(f)|
    ensures ReadValue(input, p, depth) == ReadObject(input.content, Inside(input, p, depth), s)
  {
    FirstChar(input.content, p, f, input.scan, room);
    AtSplit(input.content, p, "{", TableBody(f));
    NestedIs(input, p, depth);
  }

  lemma {:induction false} NestedRead(input: Input, p: nat, s: nat, f: Form, depth: nat, room: int, stop: nat)
    requires input.Ok() && Fine(f, input.scan, room) && room == input.nestingLimit - depth && (f.List? || f.Table?)
    requires At(input.content, p, Spelled(f)) && s == p + 1 && stop == p + |Spelled(f)| < |input.content|
    ensures p < |input.content| && ReadValue(input, p, depth) == Got(Meant(f), stop)
    decreases f, 2
  {
    if f.List? {
      ListStarts(input, p, s, f, depth, room, stop);
      ListFormRead(input, p, s, f, depth, room, stop);
    } else {
      TableStarts(input, p, s, f, depth, room, stop);
      TableFormRead(input, p, s, f, depth, room, stop);
    }
  }

  lemma {:induction false} ListFormRead(input: Input, p: nat, s: nat, f: Form, depth: nat, room: int, stop: nat)
    requires input.Ok() && s == p + 1 < |input.content| && f.List? && Fine(f, input.scan, room)
    requires room == input.nestingLimit - depth && At(input.content, s, ListBody(f)) && stop == s + |ListBody(f)|
    ensures ReadArray(input.content, Inside(input, p, depth), s) == Got(Meant(f), stop)
    decreases f, 1
  {
    var read := Inside(input, p, depth);
    if f.entries == [] {
      EmptyRead(input.content, s, f.blank, "]");
      assert Items(f) == [];
    } else {
      EntriesUnderstood(input, p, s, f, depth, room);
      var first := WholeList(input.content, ItemReader(input.content, read, s), s, Items(f), EntrySlots(f), ']', stop);
    }
  }

  lemma {:induction false} TableFormRead(input: Input, p: nat, s: nat, f: Form, depth: nat, room: int, stop: nat)
    requires input.Ok() && s == p + 1 < |input.content| && f.Table? && Fine(f, input.scan, room)
    requires room == input.nestingLimit - depth && At(input.content, s, TableBody(f)) && stop == s + |TableBody(f)|
    ensures ReadObject(input.content, Inside(input, p, depth), s) == Got(Meant(f), stop)
    decreases f, 1
  {
    var read := Inside(input, p, depth);
    if f.fields == [] {
      EmptyRead(input.content, s, f.blank, "}");
      assert Members(f) == [];
    } else {
      FieldsUnderstood(input, p, s, f, depth, room);
      var first := WholeList(input.content, MemberReader(input.content, read, s), s, Members(f), FieldSlots(f), '}', stop);
    }
  }

  /** Wherever its text stands behind p, one level deeper, a form is read. */
  lemma {:induction false} ReadInside(input: Input, p: nat, q: nat, f: Form, text: string, depth: nat, room: int)
    requires input.Ok() && p < q < |input.content| && Fine(f, input.scan, room)
    requires room == input.nestingLimit - depth - 1 && text == Spelled(f) && TextAt(input.content, q, text)
    ensures Inside(input, p, depth)(q) == Got(Meant(f), q + |text|) && input.content[q] > ' '
    decreases f, 4
  {
    FormStarts(f, input.scan, room);
    AtChar(input.content, q, text, 0);
    InsideIs(input, p, depth, q);
    FormRead(input, q, f, depth + 1, room, text);
  }

  lemma {:induction false} EntryUnderstood(input: Input, p: nat, low: nat, f: Form, text: string, depth: nat, room: int)
    requires input.Ok() && p < low == p + 1 < |input.content| && Fine(f, input.scan, room)
    requires room == input.nestingLimit - depth - 1 && text == Spelled(f)
    ensures Inked(text)
    ensures Understands(input.content, ItemReader(input.content, Inside(input, p, depth), low), low, Meant(f), text)
    decreases f, 5
  {
    FormStarts(f, input.scan, room);
    var content, one := input.content, ItemReader(input.content, Inside(input, p, depth), low);
    forall s: nat, q: nat | low <= s && Blank(content, s, q) && TextAt(content, q, text)
      ensures one(s) == Got(Meant(f), q + |text|)
    {
      ReadInside(input, p, q, f, text, depth, room);
      SkipIs(content, s, q);
    }
  }

  lemma {:induction false} EntriesUnderstood(input: Input, p: nat, low: nat, f: Form, depth: nat, room: int)
    requires input.Ok() && low == p + 1 < |input.content| && f.List? && Fine(f, input.scan, room)
    requires room == input.nestingLimit - depth
    ensures AllUnderstood(input.content, ItemReader(input.content, Inside(input, p, depth), low), low,
                          Items(f), EntrySlots(f))
    decreases f, 0
  {
    var content, one := input.content, ItemReader(input.content, Inside(input, p, depth), low);
    forall i | 0 <= i < |f.entries|
      ensures UnderstoodAt(content, one, low, Items(f), EntrySlots(f), i)
    {
      assert FineEntry(f.entries[i], input.scan, room - 1);
      EntryUnderstood(input, p, low, f.entries[i].form, EntrySlots(f)[i].text, depth, room - 1);
    }
  }

  /** The text of a field at q: its key, its colon, and its value. */
  lemma {:induction false} FieldStands(content: string, q: nat, x: Field, rest: string, text: string)
    returns (colon: nat, value: nat)
    requires AllBlank(x.before) && AllBlank(x.after) && Inked(rest)
    requires text == InQuotes(x.key) + (x.before + (":" + (x.after + rest))) && TextAt(content, q, text)
    ensures At(content, q, InQuotes(x.key)) && q + |InQuotes(x.key)| <= colon < |content| && content[colon] == ':'
    ensures Blank(content, q + |InQuotes(x.key)|, colon)
    ensures colon < value < |content| && Blank(content, colon + 1, value) && TextAt(content, value, rest)
    ensures value + |rest| == q + |text|
  {
    AtSplit(content, q, InQuotes(x.key), x.before + (":" + (x.after + rest)));
    colon := BlankThen(content, q + |InQuotes(x.key)|, x.before, ":" + (x.after + rest));
    AtSplit(content, colon, ":", x.after + rest);
    value := BlankThen(content, colon + 1, x.after, rest);
  }

  lemma {:induction false} FieldParts(content: string, q: nat, x: Field, scan: string -> nat, room: int, rest: string,
                                      text: string)
    returns (colon: nat, value: nat)
    requires FineField(x, scan, room) && rest == Spelled(x.form) && text == FieldText(x) && TextAt(content, q, text)
    ensures AllGood(x.key) && Fine(x.form, scan, room)
    ensures At(content, q, InQuotes(x.key)) && q + |InQuotes(x.key)| <= colon < |content| && content[colon] == ':'
    ensures Blank(content, q + |InQuotes(x.key)|, colon)
    ensures colon < value < |content| && Blank(content, colon + 1, value) && TextAt(content, value, rest)
    ensures value + |rest| == q + |text|
  {
    FormStarts(x.form, scan, room);
    colon, value := FieldStands(content, q, x, rest, text);
  }

  /** A key at q, behind blanks from s on. */
  lemma KeyRead(content: string, s: nat, q: nat, key: seq<Piece>, colon: nat)
    requires Ended(content) && AllGood(key) && Blank(content, s, q) && At(content, q, InQuotes(key))
    requires Blank(content, q + |InQuotes(key)|, colon) && colon < |content| && content[colon] == ':'
    ensures s < |content| && ReadKey(content, s) == Got(PiecesMeaning(key), colon + 1)
  {
    StringRead(content, q, key);
    SkipIs(content, s, q);
    SkipIs(content, q + |InQuotes(key)|, colon);
  }

  lemma ValueFollows(content: string, read: nat -> Parsed<Value>, s: nat, m: Member, colon: nat, value: nat, end: nat)
    requires Ended(content) && s < |content| && Advances(content, read, s) && ReadKey(content, s) == Got(m.key, colon + 1)
    requires Blank(content, colon + 1, value) && value < |content| && content[value] > ' ' && read(value) == Got(m.value, end)
    ensures ReadMember(content, read, s) == Got(m, end)
  {
    SkipIs(content, colon + 1, value);
  }

  lemma {:induction false} FieldRead(input: Input, p: nat, s: nat, q: nat, x: Field, m: Member, text: string,
                                     depth: nat, room: int)
    requires input.Ok() && p < s && p < |input.content| && FineField(x, input.scan, room)
    requires room == input.nestingLimit - depth - 1 && text == FieldText(x)
    requires m == Member(PiecesMeaning(x.key), Meant(x.form))
    requires Blank(input.content, s, q) && TextAt(input.content, q, text)
    ensures s < |input.content| && Advances(input.content, Inside(input, p, depth), s)
    ensures ReadMember(input.content, Inside(input, p, depth), s) == Got(m, q + |text|)
    decreases x, 4
  {
    var content, rest := input.content, Spelled(x.form);
    var colon, value := FieldParts(content, q, x, input.scan, room, rest, text);
    KeyRead(content, s, q, x.key, colon);
    ReadInside(input, p, value, x.form, rest, depth, room);
    ValueFollows(content, Inside(input, p, depth), s, m, colon, value, q + |text|);
  }

  lemma {:induction false} FieldUnderstood(input: Input, p: nat, low: nat, x: Field, m: Member, text: string,
                                           depth: nat, room: int)
    requires input.Ok() && p < low == p + 1 < |input.content| && FineField(x, input.scan, room)
    requires room == input.nestingLimit - depth - 1 && text == FieldText(x)
    requires m == Member(PiecesMeaning(x.key), Meant(x.form))
    ensures Inked(text)
    ensures Understands(input.content, MemberReader(input.content, Inside(input, p, depth), low), low, m, text)
    decreases x, 5
  {
    var content, one := input.content, MemberReader(input.content, Inside(input, p, depth), low);
    forall s: nat, q: nat | low <= s && Blank(content, s, q) && TextAt(content, q, text)
      ensures one(s) == Got(m, q + |text|)
    {
      FieldRead(input, p, s, q, x, m, text, depth, room);
    }
  }

  lemma {:induction false} FieldAt(input: Input, p: nat, low: nat, x: Field, xs: seq<Member>, slots: seq<Slot>, i: nat,
                                   depth: nat, room: int)
    requires input.Ok() && p < low == p + 1 < |input.content| && FineField(x, input.scan, room)
    requires room == input.nestingLimit - depth - 1 && i < |xs| == |slots|
    requires xs[i] == Member(PiecesMeaning(x.key), Meant(x.form)) && slots[i] == Slot(x.lead, FieldText(x), x.trail)
    ensures UnderstoodAt(input.content, MemberReader(input.content, Inside(input, p, depth), low), low, xs, slots, i)
    decreases x, 6
  {
    FieldUnderstood(input, p, low, x, xs[i], slots[i].text, depth, room);
  }

  lemma FieldIsFine(f: Form, scan: string -> nat, room: int, deeper: int, i: nat)
    requires f.Table? && Fine(f, scan, room) && deeper == room - 1 && i < |f.fields|
    ensures FineField(f.fields[i], scan, deeper)
  {
  }

  lemma {:induction false} FieldsUnderstood(input: Input, p: nat, low: nat, f: Form, depth: nat, room: int)
    requires input.Ok() && low == p + 1 < |input.content| && f.Table? && Fine(f, input.scan, room)
    requires room == input.nestingLimit - depth
    ensures AllUnderstood(input.content, MemberReader(input.content, Inside(input, p, depth), low), low,
                          Members(f), FieldSlots(f))
    decreases f, 0
  {
    var xs, slots, deeper := Members(f), FieldSlots(f), room - 1;
    var content, one := input.content, MemberReader(input.content, Inside(input, p, depth), low);
    forall i | 0 <= i < |f.fields|
      ensures UnderstoodAt(content, one, low, xs, slots, i)
    {
      FieldIsFine(f, input.scan, room, deeper, i);
      FieldAt(input, p, low, f.fields[i], xs, slots, i, depth, deeper);
    }
  }
}
