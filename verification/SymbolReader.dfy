/**
 * The raw answer of the deep graph tool, and how one value of it is read as a symbol. The answer is
 * an object heap that may share and contain cycles, so it is modelled as numbered cells whose slots
 * hold scalars or references.
 */
module SymbolReader {
  import opened Options

  type Addr = nat

  // Text is after trimming; `undefined` and null are both Null.
  datatype Value = Null | Text(text: string) | Number(number: int) | Flag(flag: bool) | Ref(addr: Addr)

  datatype Cell = Arr(items: seq<Value>) | Obj(fields: seq<(string, Value)>)

  type Heap = map<Addr, Cell>

  datatype Symbolish = Symbolish(
    name: string, kind: string, path: Option<string>, depth: Option<nat>, score: Option<int>, snippet: Option<string>)

  ghost predicate InHeap(heap: Heap, v: Value) {
    v.Ref? ==> v.addr in heap
  }

  function SlotCount(cell: Cell): nat {
    match cell case Arr(items) => |items| case Obj(fields) => |fields|
  }

  function Slot(cell: Cell, i: nat): Value
    requires i < SlotCount(cell)
  {
    match cell case Arr(items) => items[i] case Obj(fields) => fields[i].1
  }

  // No dangling references.
  ghost predicate ValidHeap(heap: Heap) {
    forall a, i :: a in heap && 0 <= i < SlotCount(heap[a]) ==> InHeap(heap, Slot(heap[a], i))
  }

  // ----- reading one value -----

  function Lookup(fields: seq<(string, Value)>, key: string): Value {
    if fields == [] then Null else if fields[0].0 == key then fields[0].1 else Lookup(fields[1..], key)
  }

  function Field(heap: Heap, v: Value, key: string): Value {
    if v.Ref? && v.addr in heap && heap[v.addr].Obj? then Lookup(heap[v.addr].fields, key) else Null
  }

  function ReadString(heap: Heap, v: Value, keys: seq<string>): Option<string> {
    if keys == [] then None else
      var raw := Field(heap, v, keys[0]);
      if raw.Text? && raw.text != "" then Some(raw.text) else ReadString(heap, v, keys[1..])
  }

  function ReadNumber(heap: Heap, v: Value, keys: seq<string>): Option<int> {
    if keys == [] then None else
      var raw := Field(heap, v, keys[0]);
      if raw.Number? then Some(raw.number) else ReadNumber(heap, v, keys[1..])
  }

  function SymbolFromValue(heap: Heap, v: Value, depth: Option<nat>): Option<Symbolish> {
    var name := ReadString(heap, v, ["name", "label", "symbol", "id"]);
    if name.None? then None else
      Some(Symbolish(
        name.value,
        ReadString(heap, v, ["kind", "type", "symbol_kind"]).GetOr("symbol"),
        ReadString(heap, v, ["filePath", "file_path", "path"]),
        depth,
        ReadNumber(heap, v, ["score", "relevance", "rrf_score"]),
        ReadString(heap, v, ["snippet", "summary", "description"])))
  }

  // ----- what reading one value means, field by field -----

  // The first field of that key holds the value.
  ghost predicate HasField(heap: Heap, v: Value, key: string, value: Value) {
    && v.Ref? && v.addr in heap && heap[v.addr].Obj?
    && exists i ::
         && 0 <= i < |heap[v.addr].fields| && heap[v.addr].fields[i] == (key, value)
         && forall j :: 0 <= j < i ==> heap[v.addr].fields[j].0 != key
  }

  ghost predicate Says(heap: Heap, v: Value, key: string, text: string) {
    text != "" && HasField(heap, v, key, Text(text))
  }

  // The text of the first of the keys that has one.
  ghost predicate FirstSaid(heap: Heap, v: Value, keys: seq<string>, text: string) {
    exists i ::
      && 0 <= i < |keys| && Says(heap, v, keys[i], text)
      && forall j, other :: 0 <= j < i ==> !Says(heap, v, keys[j], other)
  }

  ghost predicate FirstCounted(heap: Heap, v: Value, keys: seq<string>, number: int) {
    exists i ::
      && 0 <= i < |keys| && HasField(heap, v, keys[i], Number(number))
      && forall j, other :: 0 <= j < i ==> !HasField(heap, v, keys[j], Number(other))
  }

  // The text, number or text with a default that the keys give.
  ghost predicate GivesText(heap: Heap, v: Value, keys: seq<string>, r: Option<string>) {
    forall t :: r == Some(t) <==> FirstSaid(heap, v, keys, t)
  }

  ghost predicate GivesNumber(heap: Heap, v: Value, keys: seq<string>, r: Option<int>) {
    forall n :: r == Some(n) <==> FirstCounted(heap, v, keys, n)
  }

  ghost predicate GivesTextOr(heap: Heap, v: Value, keys: seq<string>, text: string, default: string) {
    if exists t :: FirstSaid(heap, v, keys, t) then FirstSaid(heap, v, keys, text) else text == default
  }

  // The symbol, depth aside, is what the fields of the value say.
  ghost predicate ReadsAs(heap: Heap, v: Value, s: Symbolish) {
    && FirstSaid(heap, v, ["name", "label", "symbol", "id"], s.name)
    && GivesTextOr(heap, v, ["kind", "type", "symbol_kind"], s.kind, "symbol")
    && GivesText(heap, v, ["filePath", "file_path", "path"], s.path)
    && GivesNumber(heap, v, ["score", "relevance", "rrf_score"], s.score)
    && GivesText(heap, v, ["snippet", "summary", "description"], s.snippet)
  }

  lemma {:induction false} LookupFinds(fields: seq<(string, Value)>, key: string)
    ensures if forall i :: 0 <= i < |fields| ==> fields[i].0 != key then Lookup(fields, key) == Null
            else exists i :: 0 <= i < |fields| && fields[i] == (key, Lookup(fields, key)) &&
                   forall j :: 0 <= j < i ==> fields[j].0 != key
  {
    if fields != [] && fields[0].0 != key {
      LookupFinds(fields[1..], key);
      if k :| 0 <= k < |fields| && fields[k].0 == key {
        assert fields[1..][k - 1] == fields[k];
        var i :| 0 <= i < |fields[1..]| && fields[1..][i] == (key, Lookup(fields[1..], key)) &&
          forall j :: 0 <= j < i ==> fields[1..][j].0 != key;
        assert fields[i + 1] == (key, Lookup(fields, key));
        forall j | 0 <= j < i + 1
          ensures fields[j].0 != key
        {
          assert j > 0 ==> fields[j] == fields[1..][j - 1];
        }
      }
    } else if fields != [] {
      assert fields[0] == (key, Lookup(fields, key));
    }
  }

  lemma FieldMeans(heap: Heap, v: Value, key: string, value: Value)
    requires value != Null
    ensures Field(heap, v, key) == value <==> HasField(heap, v, key, value)
  {
    if v.Ref? && v.addr in heap && heap[v.addr].Obj? {
      LookupFinds(heap[v.addr].fields, key);
    }
  }

  lemma {:induction false} ReadStringMeans(heap: Heap, v: Value, keys: seq<string>, text: string)
    ensures ReadString(heap, v, keys) == Some(text) <==> FirstSaid(heap, v, keys, text)
  {
    if keys != [] {
      ReadStringMeans(heap, v, keys[1..], text);
      forall other
        ensures Says(heap, v, keys[0], other) <==> Field(heap, v, keys[0]) == Text(other) && other != ""
      {
        FieldMeans(heap, v, keys[0], Text(other));
      }
      SaidByTail(heap, v, keys, text);
    }
  }

  lemma SaidByTail(heap: Heap, v: Value, keys: seq<string>, text: string)
    requires keys != []
    ensures FirstSaid(heap, v, keys, text) <==>
              if exists other :: Says(heap, v, keys[0], other) then Says(heap, v, keys[0], text)
              else FirstSaid(heap, v, keys[1..], text)
  {
    if FirstSaid(heap, v, keys, text) {
      var i :| 0 <= i < |keys| && Says(heap, v, keys[i], text)
        && forall j, other :: 0 <= j < i ==> !Says(heap, v, keys[j], other);
      if i > 0 {
        assert keys[1..][i - 1] == keys[i];
        assert forall j :: 0 <= j < i - 1 ==> keys[1..][j] == keys[j + 1];
      }
    }
    if other :| Says(heap, v, keys[0], other) {
    } else if FirstSaid(heap, v, keys[1..], text) {
      var i :| 0 <= i < |keys[1..]| && Says(heap, v, keys[1..][i], text)
        && forall j, other :: 0 <= j < i ==> !Says(heap, v, keys[1..][j], other);
      assert keys[i + 1] == keys[1..][i];
      assert forall j :: 0 < j < i + 1 ==> keys[j] == keys[1..][j - 1];
    }
  }

  lemma {:induction false} ReadNumberMeans(heap: Heap, v: Value, keys: seq<string>, number: int)
    ensures ReadNumber(heap, v, keys) == Some(number) <==> FirstCounted(heap, v, keys, number)
  {
    if keys != [] {
      ReadNumberMeans(heap, v, keys[1..], number);
      forall other
        ensures HasField(heap, v, keys[0], Number(other)) <==> Field(heap, v, keys[0]) == Number(other)
      {
        FieldMeans(heap, v, keys[0], Number(other));
      }
      CountedByTail(heap, v, keys, number);
    }
  }

  lemma CountedByTail(heap: Heap, v: Value, keys: seq<string>, number: int)
    requires keys != []
    ensures FirstCounted(heap, v, keys, number) <==>
              if exists other :: HasField(heap, v, keys[0], Number(other))
              then HasField(heap, v, keys[0], Number(number))
              else FirstCounted(heap, v, keys[1..], number)
  {
    if FirstCounted(heap, v, keys, number) {
      var i :| 0 <= i < |keys| && HasField(heap, v, keys[i], Number(number))
        && forall j, other :: 0 <= j < i ==> !HasField(heap, v, keys[j], Number(other));
      if i > 0 {
        assert keys[1..][i - 1] == keys[i];
        assert forall j :: 0 <= j < i - 1 ==> keys[1..][j] == keys[j + 1];
      }
    }
    if other :| HasField(heap, v, keys[0], Number(other)) {
    } else if FirstCounted(heap, v, keys[1..], number) {
      var i :| 0 <= i < |keys[1..]| && HasField(heap, v, keys[1..][i], Number(number))
        && forall j, other :: 0 <= j < i ==> !HasField(heap, v, keys[1..][j], Number(other));
      assert keys[i + 1] == keys[1..][i];
      assert forall j :: 0 < j < i + 1 ==> keys[j] == keys[1..][j - 1];
    }
  }

  lemma OptionSaid(heap: Heap, v: Value, keys: seq<string>, r: Option<string>)
    ensures GivesText(heap, v, keys, r) <==> r == ReadString(heap, v, keys)
  {
    forall t
      ensures ReadString(heap, v, keys) == Some(t) <==> FirstSaid(heap, v, keys, t)
    {
      ReadStringMeans(heap, v, keys, t);
    }
    var read := ReadString(heap, v, keys);
    if GivesText(heap, v, keys, r) {
      assert r.Some? ==> FirstSaid(heap, v, keys, r.value);
      assert read.Some? ==> FirstSaid(heap, v, keys, read.value);
    }
  }

  lemma OptionCounted(heap: Heap, v: Value, keys: seq<string>, r: Option<int>)
    ensures GivesNumber(heap, v, keys, r) <==> r == ReadNumber(heap, v, keys)
  {
    forall n
      ensures ReadNumber(heap, v, keys) == Some(n) <==> FirstCounted(heap, v, keys, n)
    {
      ReadNumberMeans(heap, v, keys, n);
    }
    var read := ReadNumber(heap, v, keys);
    if GivesNumber(heap, v, keys, r) {
      assert r.Some? ==> FirstCounted(heap, v, keys, r.value);
      assert read.Some? ==> FirstCounted(heap, v, keys, read.value);
    }
  }

  lemma SaidOrElse(heap: Heap, v: Value, keys: seq<string>, text: string, default: string)
    ensures GivesTextOr(heap, v, keys, text, default) <==>
              text == ReadString(heap, v, keys).GetOr(default)
  {
    OptionSaid(heap, v, keys, ReadString(heap, v, keys));
  }

  // A value is read as a symbol exactly when its fields say so; they say at most one.
  lemma SymbolExactly(heap: Heap, v: Value, depth: Option<nat>, s: Symbolish)
    ensures SymbolFromValue(heap, v, depth) == Some(s) <==> s.depth == depth && ReadsAs(heap, v, s)
  {
    ReadStringMeans(heap, v, ["name", "label", "symbol", "id"], s.name);
    SaidOrElse(heap, v, ["kind", "type", "symbol_kind"], s.kind, "symbol");
    OptionSaid(heap, v, ["filePath", "file_path", "path"], s.path);
    OptionCounted(heap, v, ["score", "relevance", "rrf_score"], s.score);
    OptionSaid(heap, v, ["snippet", "summary", "description"], s.snippet);
  }

  // ----- keys -----

  predicate IsDigit(c: char) {
    '0' <= c <= '9'
  }

  predicate AllDigits(s: string) {
    forall i :: 0 <= i < |s| ==> IsDigit(s[i])
  }

  function Lower(c: char): char {
    if 'A' <= c <= 'Z' then (c as int + 32) as char else c
  }

  // depth, an optional _ or -, then digits, in any case
  predicate IsDepthKey(key: string) {
    && |key| >= 6
    && (forall i :: 0 <= i < 5 ==> Lower(key[i]) == "depth"[i])
    && var rest := if key[5] == '_' || key[5] == '-' then key[6..] else key[5..];
       rest != [] && AllDigits(rest)
  }

  function NumberFrom(s: string, sofar: nat): nat {
    if s == [] || !IsDigit(s[0]) then sofar else NumberFrom(s[1..], 10 * sofar + (s[0] as int - '0' as int))
  }

  // The first run of digits, as a number.
  function FirstNumber(s: string): Option<nat> {
    if s == [] then None else if IsDigit(s[0]) then Some(NumberFrom(s, 0)) else FirstNumber(s[1..])
  }

  predicate Skipped(key: string) {
    key in ["summary", "meta", "stats", "schema"]
  }

  predicate NamesSymbol(key: string) {
    key in ["symbol", "target", "source"]
  }

  // Index of the first key that is a depth key or `by_depth`.
  function FirstDepthField(fields: seq<(string, Value)>, i: nat): (r: nat)
    requires i <= |fields|
    ensures i <= r <= |fields|
    ensures r < |fields| ==> IsDepthKey(fields[r].0) || fields[r].0 == "by_depth"
    ensures forall j :: i <= j < r ==> !IsDepthKey(fields[j].0) && fields[j].0 != "by_depth"
    decreases |fields| - i
  {
    if i == |fields| || IsDepthKey(fields[i].0) || fields[i].0 == "by_depth" then i
    else FirstDepthField(fields, i + 1)
  }

  // ----- what the keys mean -----

  // The word in any case.
  ghost predicate DepthWord(word: string) {
    && |word| == 5
    && (word[0] == 'd' || word[0] == 'D') && (word[1] == 'e' || word[1] == 'E') && (word[2] == 'p' || word[2] == 'P')
    && (word[3] == 't' || word[3] == 'T') && (word[4] == 'h' || word[4] == 'H')
  }

  lemma DepthWordMeans(word: string)
    requires |word| == 5
    ensures DepthWord(word) <==> forall i :: 0 <= i < 5 ==> Lower(word[i]) == "depth"[i]
  {
    assert "depth"[0] == 'd' && "depth"[1] == 'e' && "depth"[2] == 'p' && "depth"[3] == 't' && "depth"[4] == 'h';
    forall c: char
      ensures Lower(c) == 'd' <==> c == 'd' || c == 'D'
      ensures Lower(c) == 'e' <==> c == 'e' || c == 'E'
      ensures Lower(c) == 'p' <==> c == 'p' || c == 'P'
      ensures Lower(c) == 't' <==> c == 't' || c == 'T'
      ensures Lower(c) == 'h' <==> c == 'h' || c == 'H'
    {
    }
  }

  // The depth keys are the word, an optional separator, and digits.
  ghost predicate DepthParts(key: string, word: string, sep: string, digits: string) {
    && key == word + sep + digits
    && DepthWord(word)
    && (sep == "" || sep == "_" || sep == "-")
    && digits != "" && forall i :: 0 <= i < |digits| ==> '0' <= digits[i] <= '9'
  }

  lemma PartsMakeDepthKey(key: string, word: string, sep: string, digits: string)
    requires DepthParts(key, word, sep, digits)
    ensures IsDepthKey(key)
  {
    DepthWordMeans(word);
    assert forall i :: 0 <= i < 5 ==> key[i] == word[i];
    if sep == "" {
      assert key[5] == digits[0] && key[5..] == digits;
    } else {
      assert key[5] == sep[0] && key[6..] == digits;
    }
  }

  lemma IsDepthKeyExactly(key: string)
    ensures IsDepthKey(key) <==> exists word, sep, digits :: DepthParts(key, word, sep, digits)
  {
    if IsDepthKey(key) {
      var word := key[..5];
      var sep := if key[5] == '_' || key[5] == '-' then [key[5]] else "";
      var digits := key[5 + |sep|..];
      DepthWordMeans(word);
      assert key == word + sep + digits;
      assert forall i :: 0 <= i < |digits| ==> IsDigit(digits[i]);
      assert DepthParts(key, word, sep, digits);
    }
    if word, sep, digits :| DepthParts(key, word, sep, digits) {
      PartsMakeDepthKey(key, word, sep, digits);
    }
  }

  // The value of a run of digits.
  function ValueOf(digits: string): nat
    requires AllDigits(digits)
  {
    if digits == "" then 0
    else 10 * ValueOf(digits[..|digits| - 1]) + (digits[|digits| - 1] as int - '0' as int)
  }

  lemma {:induction false} NumberFromStops(digits: string, rest: string, sofar: nat, read: string)
    requires AllDigits(digits) && AllDigits(read) && sofar == ValueOf(read)
    requires rest != "" ==> !IsDigit(rest[0])
    ensures AllDigits(read + digits) && NumberFrom(digits + rest, sofar) == ValueOf(read + digits)
    decreases |digits|
  {
    if digits == "" {
      assert digits + rest == rest && read + digits == read;
    } else {
      var more := read + digits[..1];
      assert more[..|more| - 1] == read;
      assert (digits + rest)[1..] == digits[1..] + rest;
      NumberFromStops(digits[1..], rest, ValueOf(more), more);
      assert more + digits[1..] == read + digits;
    }
  }

  // The number of a text is that of its first full run of digits; a text without digits has none.
  lemma {:induction false} FirstNumberExactly(front: string, digits: string, rest: string)
    requires forall i :: 0 <= i < |front| ==> !('0' <= front[i] <= '9')
    requires AllDigits(digits) && (rest != "" ==> !('0' <= rest[0] <= '9'))
    ensures digits != "" ==> FirstNumber(front + digits + rest) == Some(ValueOf(digits))
    ensures FirstNumber(front) == None
    decreases |front|
  {
    if front == "" {
      assert front + digits + rest == digits + rest;
      if digits != "" {
        NumberFromStops(digits, rest, 0, "");
        assert "" + digits == digits;
      }
    } else {
      assert (front + digits + rest)[1..] == front[1..] + digits + rest;
      FirstNumberExactly(front[1..], digits, rest);
    }
  }

  lemma DepthKeyHasNumber(key: string)
    requires IsDepthKey(key)
    ensures FirstNumber(key).Some?
  {
    var k := if key[5] == '_' || key[5] == '-' then 6 else 5;
    assert key == key[..k] + key[k..] + "";
    assert AllDigits(key[k..]);
    forall i | 0 <= i < k
      ensures !('0' <= key[i] <= '9')
    {
      assert i < 5 ==> Lower(key[i]) == "depth"[i];
    }
    FirstNumberExactly(key[..k], key[k..], "");
  }
}
