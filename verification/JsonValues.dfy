/** What the parser builds: objects are maps kept in order, and every parsed value prints to text that
    reads as the same value. */
module JsonValues {
  import opened JsonText
  import opened JsonGrammar
  import opened JsonRoundTrip

  // ---------------------------------------------------------------- the order of keys

  lemma {:induction false} LessTransitive(a: seq<byte>, b: seq<byte>, c: seq<byte>)
    requires Less(a, b) && Less(b, c)
    ensures Less(a, c)
    decreases |a|
  {
    if a != [] && a[0] == b[0] && b[0] == c[0] {
      LessTransitive(a[1..], b[1..], c[1..]);
    }
  }

  /** Exactly one of three. */
  lemma {:induction false} LessTotal(a: seq<byte>, b: seq<byte>)
    ensures Less(a, b) <==> !(a == b || Less(b, a))
    ensures Less(b, a) <==> !(a == b || Less(a, b))
    decreases |a|
  {
    if a != [] && b != [] && a[0] == b[0] {
      assert a == [a[0]] + a[1..] && b == [b[0]] + b[1..];
      LessTotal(a[1..], b[1..]);
    }
  }

  // ---------------------------------------------------------------- objects are maps

  function Map(fields: seq<Field>): map<seq<byte>, Value> {
    if fields == [] then map[]
    else Map(fields[..|fields| - 1])[fields[|fields| - 1].key := fields[|fields| - 1].value]
  }

  lemma {:induction false} MapKeys(fields: seq<Field>)
    ensures forall key :: key in Map(fields) <==> exists i :: 0 <= i < |fields| && fields[i].key == key
    decreases |fields|
  {
    if fields != [] {
      var n := |fields| - 1;
      MapKeys(fields[..n]);
      forall key
        ensures key in Map(fields) <==> exists i :: 0 <= i < |fields| && fields[i].key == key
      {
        if key in Map(fields[..n]) {
          var i :| 0 <= i < n && fields[..n][i].key == key;
          assert fields[i].key == key;
        }
        if i :| 0 <= i < |fields| && fields[i].key == key {
          assert i < n ==> fields[..n][i].key == key;
        }
      }
    }
  }

  predicate Above(fields: seq<Field>, key: seq<byte>) {
    forall i :: 0 <= i < |fields| ==> Less(fields[i].key, key)
  }

  lemma SortedLast(fields: seq<Field>)
    requires Sorted(fields) && fields != []
    ensures Sorted(fields[..|fields| - 1]) && Above(fields[..|fields| - 1], fields[|fields| - 1].key)
  {
  }

  lemma SortedAppend(fields: seq<Field>, f: Field)
    requires Sorted(fields) && Above(fields, f.key)
    ensures Sorted(fields + [f])
  {
  }

  lemma {:induction false} PutAbove(fields: seq<Field>, key: seq<byte>, v: Value, bound: seq<byte>)
    requires Above(fields, bound) && Less(key, bound)
    ensures Above(Put(fields, key, v), bound)
    decreases |fields|
  {
    hide Less;
    if fields != [] {
      PutAbove(fields[..|fields| - 1], key, v, bound);
    }
  }

  lemma AboveLater(fields: seq<Field>, low: seq<byte>, high: seq<byte>)
    requires Above(fields, low) && Less(low, high)
    ensures Above(fields, high)
  {
    hide Less;
    forall i | 0 <= i < |fields| ensures Less(fields[i].key, high) {
      LessTransitive(fields[i].key, low, high);
    }
  }

  lemma MapAppend(fields: seq<Field>, f: Field)
    ensures Map(fields + [f]) == Map(fields)[f.key := f.value]
  {
    assert (fields + [f])[..|fields|] == fields;
  }

  /** `Put` is the update of the map, and keeps the order. */
  lemma {:induction false} PutIsUpdate(fields: seq<Field>, key: seq<byte>, v: Value)
    requires Sorted(fields)
    ensures Sorted(Put(fields, key, v)) && Map(Put(fields, key, v)) == Map(fields)[key := v]
    decreases |fields|
  {
    hide Less, Map, Sorted, Above;
    if fields == [] {
      PutOne(key, v);
      return;
    }
    var n := |fields| - 1;
    var f, front := fields[n], fields[..n];
    assert fields == front + [f];
    SortedLast(fields);
    MapAppend(front, f);
    LessTotal(f.key, key);
    if Less(f.key, key) {
      AboveLater(front, f.key, key);
      AboveAppend(front, f, key);
      SortedAppend(fields, Field(key, v));
      MapAppend(fields, Field(key, v));
    } else if f.key == key {
      SortedAppend(front, Field(key, v));
      MapAppend(front, Field(key, v));
    } else {
      PutIsUpdate(front, key, v);
      PutAbove(front, key, v, f.key);
      SortedAppend(Put(front, key, v), f);
      MapAppend(Put(front, key, v), f);
      assert Map(front)[key := v][f.key := f.value] == Map(front)[f.key := f.value][key := v];
    }
  }

  lemma PutOne(key: seq<byte>, v: Value)
    ensures Sorted(Put([], key, v)) && Map(Put([], key, v)) == Map([])[key := v]
  {
    MapAppend([], Field(key, v));
    assert [] + [Field(key, v)] == [Field(key, v)];
  }

  lemma AboveAppend(front: seq<Field>, f: Field, key: seq<byte>)
    requires Above(front, key) && Less(f.key, key)
    ensures Above(front + [f], key)
  {
  }

  // ---------------------------------------------------------------- parsed values

  /** What a number prints as is the text of that number. */
  ghost predicate Stable(read: Reader) {
    forall t :: read(t).Some? ==> NumberText(read(t).value, read)
  }

  predicate AllValid(items: seq<Value>, read: Reader) {
    forall i :: 0 <= i < |items| ==> ValidValue(items[i], read)
  }

  predicate FieldsValid(fields: seq<Field>, read: Reader) {
    Sorted(fields) && forall i :: 0 <= i < |fields| ==> ValidValue(fields[i].value, read)
  }

  lemma {:induction false} PutValid(fields: seq<Field>, key: seq<byte>, v: Value, read: Reader)
    requires FieldsValid(fields, read) && ValidValue(v, read)
    ensures FieldsValid(Put(fields, key, v), read)
    decreases |fields|
  {
    hide Less, ValidValue;
    PutIsUpdate(fields, key, v);
    if fields != [] {
      SortedLast(fields);
      PutValid(fields[..|fields| - 1], key, v, read);
    }
  }

  /** Every parsed value is one that prints and reads back. */
  lemma {:induction false} ParsedIsValid(s: seq<byte>, read: Reader)
    requires Stable(read) && Parse(s, read).Good?
    ensures ValidValue(Parse(s, read).value, read)
    decreases |s|, 2
  {
    hide StringTail, ParseItems, ParseFields, NumberLength, NumberText;
    var t := SkipWs(s);
    if t[0] == 0x5B && Expect(t[1..], 0x5D).None? {
      ItemsAreValid(t[1..], [], read);
    } else if t[0] == 0x7B && Expect(t[1..], 0x7D).None? {
      FieldsAreValid(t[1..], [], read);
    }
  }

  lemma {:induction false} ItemsAreValid(s: seq<byte>, acc: seq<Value>, read: Reader)
    requires Stable(read) && AllValid(acc, read) && ParseItems(s, acc, read).Good?
    ensures ValidValue(ParseItems(s, acc, read).value, read)
    decreases |s|, 3
  {
    hide Parse, Expect, Stable;
    ParsedIsValid(s, read);
    var p := Parse(s, read);
    AllValidAppend(acc, p.value, read);
    if Expect(p.rest, COMMA).Some? {
      ItemsAreValid(Expect(p.rest, COMMA).value, acc + [p.value], read);
    } else {
      ArrayValid(acc + [p.value], read);
    }
  }

  lemma AllValidAppend(acc: seq<Value>, v: Value, read: Reader)
    requires AllValid(acc, read) && ValidValue(v, read)
    ensures AllValid(acc + [v], read)
  {
    hide ValidValue;
  }

  lemma ArrayValid(items: seq<Value>, read: Reader)
    requires AllValid(items, read)
    ensures ValidValue(Arr(items), read)
  {
  }

  lemma ObjectValid(fields: seq<Field>, read: Reader)
    requires FieldsValid(fields, read)
    ensures ValidValue(Obj(fields), read)
  {
  }

  lemma {:induction false} FieldsAreValid(s: seq<byte>, acc: seq<Field>, read: Reader)
    requires Stable(read) && FieldsValid(acc, read) && ParseFields(s, acc, read).Good?
    ensures ValidValue(ParseFields(s, acc, read).value, read)
    decreases |s|, 3
  {
    hide Parse, Expect, Stable, StringTail, Put, FieldsValid, ValidValue;
    var k := StringTail(Expect(s, QUOTE).value, []);
    var p := Parse(Expect(k.rest, COLON).value, read);
    ParsedIsValid(Expect(k.rest, COLON).value, read);
    PutValid(acc, k.value, p.value, read);
    var fields := Put(acc, k.value, p.value);
    if Expect(p.rest, COMMA).Some? {
      FieldsAreValid(Expect(p.rest, COMMA).value, fields, read);
    } else {
      ObjectValid(fields, read);
    }
  }

  /** Parsing what a parsed value prints gives that value again: one round of printing is canonical. */
  lemma ParsedPrintsBack(s: seq<byte>, prettify: bool, read: Reader)
    requires Stable(read) && Parse(s, read).Good?
    ensures var v := Parse(s, read).value;
            Parse(Serialize(v, prettify), read) == Good(v, if prettify then [NEWLINE] else [])
  {
    hide *;
    ParsedIsValid(s, read);
    SerializeReads(Parse(s, read).value, prettify, read);
  }
}
