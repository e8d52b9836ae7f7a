/**
 * Which value a JSON text means: the parser as functions of the text.
 */
module JsonGrammar {
  import opened JsonString
  import opened JsonValue

  // ---- Reading ----

  /** A C string with its NUL, how much of a text strtod reads, and how deep values may nest. */
  datatype Input = Input(content: string, scan: string -> nat, nestingLimit: nat) {
    ghost predicate Ok() {
      Ended(content) && forall t :: scan(t) <= |t|
    }
  }

  predicate Ended(content: string) {
    content != "" && content[|content| - 1] == NUL
  }

  datatype Parsed<T> = Fail | Got(value: T, next: nat)

  /** Characters the parser skips: everything up to the space. */
  ghost predicate Blank(content: string, from: nat, to: nat) {
    from <= to <= |content| && forall k :: from <= k < to ==> content[k] <= ' '
  }

  /** buffer_skip_whitespace: the next character that is not blank, or the NUL at the end. */
  ghost function Skip(content: string, p: nat): (q: nat)
    requires p < |content|
    ensures p <= q < |content|
    decreases |content| - p
  {
    if content[p] > ' ' || p + 1 == |content| then p else Skip(content, p + 1)
  }

  lemma {:induction false} SkipBlank(content: string, p: nat)
    requires p < |content|
    ensures Blank(content, p, Skip(content, p))
    ensures content[Skip(content, p)] > ' ' || Skip(content, p) + 1 == |content|
    decreases |content| - p
  {
    if content[p] <= ' ' && p + 1 < |content| {
      SkipBlank(content, p + 1);
    }
  }

  /** parse_string: both passes over a string. */
  ghost function ReadString(content: string, p: nat): (r: Parsed<string>)
    requires Ended(content) && p < |content|
    ensures r.Got? ==> p < r.next < |content|
  {
    var end := StringEnd(content, p + 1);
    if content[p] != QUOTE || end == |content| then Fail
    else
      match DecodeBody(content, p + 1, end, "")
      case Malformed => Fail
      case Decoded(text) => Got(text, end + 1)
  }

  /** How many characters of a number stand at p, up to most. */
  ghost function NumberRun(content: string, p: nat, most: nat): (n: nat)
    requires Ended(content) && p < |content|
    ensures n <= most && p + n < |content|
    ensures forall k :: p <= k < p + n ==> NumberChar(content[k])
    ensures n == most || !NumberChar(content[p + n])
    decreases most
  {
    if most == 0 || !NumberChar(content[p]) then 0 else 1 + NumberRun(content, p + 1, most - 1)
  }

  /** The most that parse_number hands to strtod. */
  const NUMBER_SPACE := 63

  /** parse_number. */
  ghost function ReadNumber(input: Input, p: nat): (r: Parsed<Value>)
    requires input.Ok() && p < |input.content|
    ensures r.Got? ==> p < r.next < |input.content|
  {
    NumberIn(input, p, NumberRun(input.content, p, NUMBER_SPACE))
  }

  /** The number that strtod finds in the n characters at p. */
  ghost function NumberIn(input: Input, p: nat, n: nat): (r: Parsed<Value>)
    requires input.Ok() && p + n < |input.content|
    ensures r.Got? ==> p < r.next <= p + n
  {
    var text := input.content[p..p + n];
    var length := input.scan(text);
    if length == 0 then Fail else Got(Number(text[..length]), p + length)
  }

  // ---- Lists ----

  /** What a reader of elements finds, from low on, lies ahead in the text. */
  ghost predicate Advances<T>(content: string, one: nat -> Parsed<T>, low: nat) {
    forall q :: low <= q < |content| && one(q).Got? ==> q < one(q).next < |content|
  }

  ghost function After<T>(x: T, more: Parsed<seq<T>>): Parsed<seq<T>> {
    match more
    case Fail => Fail
    case Got(xs, next) => Got([x] + xs, next)
  }

  /** Elements from p on, with commas between them, up to the closing character. */
  ghost function ReadList<T>(content: string, one: nat -> Parsed<T>, close: char, p: nat): (r: Parsed<seq<T>>)
    requires Ended(content) && p < |content| && Advances(content, one, p) && close != NUL
    ensures r.Got? ==> p < r.next < |content|
    decreases |content| - p
  {
    match one(p)
    case Fail => Fail
    case Got(x, next) =>
      var e := Skip(content, next);
      if content[e] == ',' then After(x, ReadList(content, one, close, e + 1))
      else if content[e] == close then Got([x], e + 1)
      else Fail
  }

  /** An item is a value behind white space. */
  ghost function ItemReader(content: string, read: nat -> Parsed<Value>, low: nat): (one: nat -> Parsed<Value>)
    requires Advances(content, read, low)
    ensures Advances(content, one, low)
  {
    q => if low <= q < |content| then read(Skip(content, q)) else Fail
  }

  /** parse_array, behind its bracket. */
  ghost function ReadArray(content: string, read: nat -> Parsed<Value>, p: nat): (r: Parsed<Value>)
    requires Ended(content) && p < |content| && Advances(content, read, p)
    ensures r.Got? ==> p < r.next < |content|
  {
    var first := Skip(content, p);
    if content[first] == ']' then Got(Array([]), first + 1)
    else AsArray(ReadList(content, ItemReader(content, read, p), ']', first))
  }

  ghost function AsArray(r: Parsed<seq<Value>>): Parsed<Value> {
    if r.Got? then Got(Array(r.value), r.next) else Fail
  }

  /** A name and the colon behind it. */
  ghost function ReadKey(content: string, p: nat): (r: Parsed<string>)
    requires Ended(content) && p < |content|
    ensures r.Got? ==> p < r.next < |content|
  {
    match ReadString(content, Skip(content, p))
    case Fail => Fail
    case Got(name, next) =>
      var colon := Skip(content, next);
      if content[colon] == ':' then Got(name, colon + 1) else Fail
  }

  /** A name, a colon and a value. */
  ghost function ReadMember(content: string, read: nat -> Parsed<Value>, p: nat): (r: Parsed<Member>)
    requires Ended(content) && p < |content| && Advances(content, read, p)
    ensures r.Got? ==> p < r.next < |content|
  {
    match ReadKey(content, p)
    case Fail => Fail
    case Got(name, next) => AsMember(name, read(Skip(content, next)))
  }

  ghost function AsMember(name: string, r: Parsed<Value>): Parsed<Member> {
    if r.Got? then Got(Member(name, r.value), r.next) else Fail
  }

  ghost function MemberReader(content: string, read: nat -> Parsed<Value>, low: nat): (one: nat -> Parsed<Member>)
    requires Ended(content) && Advances(content, read, low)
    ensures Advances(content, one, low)
  {
    q => if low <= q < |content| then ReadMember(content, read, q) else Fail
  }

  /** parse_object, behind its brace. */
  ghost function ReadObject(content: string, read: nat -> Parsed<Value>, p: nat): (r: Parsed<Value>)
    requires Ended(content) && p < |content| && Advances(content, read, p)
    ensures r.Got? ==> p < r.next < |content|
  {
    var first := Skip(content, p);
    if content[first] == '}' then Got(Object([]), first + 1)
    else AsObject(ReadList(content, MemberReader(content, read, p), '}', first))
  }

  ghost function AsObject(r: Parsed<seq<Member>>): Parsed<Value> {
    if r.Got? then Got(Object(r.value), r.next) else Fail
  }

  // ---- Values ----

  /** Values that are neither words nor nested. */
  ghost function ReadOther(input: Input, p: nat): (r: Parsed<Value>)
    requires input.Ok() && p < |input.content|
    ensures r.Got? ==> p < r.next < |input.content|
  {
    var c := input.content[p];
    if c == QUOTE then
      match ReadString(input.content, p)
      case Fail => Fail
      case Got(text, next) => Got(Text(text), next)
    else if c == '-' || '0' <= c <= '9' then ReadNumber(input, p)
    else Fail
  }

  /** parse_value: the value that starts at p, and where the text goes on behind it. */
  ghost function ReadValue(input: Input, p: nat, depth: nat): (r: Parsed<Value>)
    requires input.Ok() && p < |input.content|
    ensures r.Got? ==> p < r.next < |input.content|
    decreases |input.content| - p, 1
  {
    match WordAt(input.content, p)
    case Word(v, length) =>
      WordEnds(input.content, p);
      Got(v, p + length)
    case NoWord =>
      if input.content[p] == '[' && depth < input.nestingLimit then
        ReadArray(input.content, Inside(input, p, depth), p + 1)
      else if input.content[p] == '{' && depth < input.nestingLimit then
        ReadObject(input.content, Inside(input, p, depth), p + 1)
      else ReadOther(input, p)
  }

  /** The reader of the values behind p, one level deeper. */
  ghost function Inside(input: Input, p: nat, depth: nat): (read: nat -> Parsed<Value>)
    requires input.Ok() && p < |input.content|
    ensures Advances(input.content, read, p + 1)
    decreases |input.content| - p, 0
  {
    q => if p < q < |input.content| then ReadValue(input, q, depth + 1) else Fail
  }

  lemma InsideIs(input: Input, p: nat, depth: nat, q: nat)
    requires input.Ok() && p < q < |input.content|
    ensures Inside(input, p, depth)(q) == ReadValue(input, q, depth + 1)
  {
  }

  datatype Word = NoWord | Word(value: Value, length: nat)

  predicate Reads(content: string, i: nat, word: string) {
    i + |word| <= |content| && content[i..i + |word|] == word
  }

  function WordAt(content: string, i: nat): Word {
    if Reads(content, i, "null") then Word(Null, 4)
    else if Reads(content, i, "false") then Word(False, 5)
    else if Reads(content, i, "true") then Word(True, 4)
    else NoWord
  }

  /** No word reaches over the NUL. */
  lemma WordEnds(content: string, i: nat)
    requires content != "" && content[|content| - 1] == NUL && WordAt(content, i).Word?
    ensures i + WordAt(content, i).length < |content|
  {
    if Reads(content, i, "null") {
      AtChar(content, i, "null", 3);
    } else if Reads(content, i, "false") {
      AtChar(content, i, "false", 4);
    } else {
      AtChar(content, i, "true", 3);
    }
  }

  lemma WordIs(content: string, i: nat)
    requires i < |content|
    ensures Reads(content, i, "null") ==> content[i] == 'n'
    ensures Reads(content, i, "false") ==> content[i] == 'f'
    ensures Reads(content, i, "true") ==> content[i] == 't'
  {
    if Reads(content, i, "null") {
      AtChar(content, i, "null", 0);
    }
    if Reads(content, i, "false") {
      AtChar(content, i, "false", 0);
    }
    if Reads(content, i, "true") {
      AtChar(content, i, "true", 0);
    }
  }

  // ---- The nesting limit ----

  /** v has at most room levels of arrays and objects. */
  ghost predicate NestsIn(v: Value, room: int) {
    match v
    case Array(items) => room > 0 && forall i :: 0 <= i < |items| ==> NestsIn(items[i], room - 1)
    case Object(members) => room > 0 && forall i :: 0 <= i < |members| ==> NestsIn(members[i].value, room - 1)
    case _ => true
  }

  /** What read finds from low on nests in room. */
  ghost predicate FindsNested(content: string, read: nat -> Parsed<Value>, low: nat, room: int) {
    forall q :: low <= q < |content| && read(q).Got? ==> NestsIn(read(q).value, room)
  }

  /** What holds of all elements that one finds holds of those in a list. */
  lemma {:induction false} ListOf<T>(content: string, one: nat -> Parsed<T>, close: char, low: nat, p: nat, good: T -> bool)
    requires Ended(content) && low <= p < |content| && Advances(content, one, low) && close != NUL
    requires forall q :: low <= q < |content| && one(q).Got? ==> good(one(q).value)
    ensures var r := ReadList(content, one, close, p); r.Got? ==> forall i :: 0 <= i < |r.value| ==> good(r.value[i])
    decreases |content| - p
  {
    var r := ReadList(content, one, close, p);
    if r.Got? {
      var x, e := one(p).value, Skip(content, one(p).next);
      assert good(x);
      if content[e] == ',' {
        ListOf(content, one, close, low, e + 1, good);
        assert r.value == [x] + ReadList(content, one, close, e + 1).value;
      }
    }
  }

  lemma ArrayNests(content: string, read: nat -> Parsed<Value>, p: nat, room: nat)
    requires Ended(content) && p < |content| && Advances(content, read, p) && FindsNested(content, read, p, room)
    ensures ReadArray(content, read, p).Got? ==> NestsIn(ReadArray(content, read, p).value, room + 1)
  {
    var one := ItemReader(content, read, p);
    forall q | p <= q < |content| && one(q).Got?
      ensures NestsIn(one(q).value, room)
    {
      assert read(Skip(content, q)).Got?;
    }
    ListOf(content, one, ']', p, Skip(content, p), (v: Value) => NestsIn(v, room));
  }

  lemma ObjectNests(content: string, read: nat -> Parsed<Value>, p: nat, room: nat)
    requires Ended(content) && p < |content| && Advances(content, read, p) && FindsNested(content, read, p, room)
    ensures ReadObject(content, read, p).Got? ==> NestsIn(ReadObject(content, read, p).value, room + 1)
  {
    ListOf(content, MemberReader(content, read, p), '}', p, Skip(content, p), (m: Member) => NestsIn(m.value, room));
  }

  lemma NotNested(input: Input, p: nat, depth: nat)
    requires input.Ok() && p < |input.content|
    requires (input.content[p] != '[' && input.content[p] != '{') || depth >= input.nestingLimit
    ensures var r := ReadValue(input, p, depth); r.Got? ==> !r.value.Array? && !r.value.Object?
  {
  }

  lemma NestedIs(input: Input, p: nat, depth: nat)
    requires input.Ok() && p + 1 < |input.content| && depth < input.nestingLimit
    ensures input.content[p] == '[' ==>
        ReadValue(input, p, depth) == ReadArray(input.content, Inside(input, p, depth), p + 1)
    ensures input.content[p] == '{' ==>
        ReadValue(input, p, depth) == ReadObject(input.content, Inside(input, p, depth), p + 1)
  {
    WordIs(input.content, p);
  }

  /** Whatever the text, a value that is read nests no deeper than the limit allows. */
  lemma {:induction false} NestingIsLimited(input: Input, p: nat, depth: nat, room: int)
    requires input.Ok() && p < |input.content| && room == input.nestingLimit - depth
    ensures var r := ReadValue(input, p, depth); r.Got? ==> NestsIn(r.value, room)
    decreases |input.content| - p, 1
  {
    if (input.content[p] == '[' || input.content[p] == '{') && depth < input.nestingLimit {
      NestedIs(input, p, depth);
      InsideNests(input, p, depth, p + 1, room - 1);
      ArrayNests(input.content, Inside(input, p, depth), p + 1, room - 1);
      ObjectNests(input.content, Inside(input, p, depth), p + 1, room - 1);
    } else {
      NotNested(input, p, depth);
    }
  }

  lemma {:induction false} InsideNests(input: Input, p: nat, depth: nat, low: nat, room: int)
    requires input.Ok() && low == p + 1 < |input.content| && room == input.nestingLimit - depth - 1
    ensures FindsNested(input.content, Inside(input, p, depth), low, room)
    decreases |input.content| - p, 0
  {
    var content, read, deeper := input.content, Inside(input, p, depth), depth + 1;
    forall q | low <= q < |content| && read(q).Got?
      ensures NestsIn(read(q).value, room)
    {
      InsideIs(input, p, depth, q);
      NestingIsLimited(input, q, deeper, room);
    }
  }
}
