/** The attribute-string renderer of the builder: `Builder::attributes` and
    `Builder::attributeElement`. HTML escaping (`e()`) is a parameter. */
module Html {
  import opened Php

  /** The attribute name `attributeElement` prints: the key, or the value
      itself when the key is numeric (`is_numeric`): an integer key, or a
      string key such as `05` or `1.5` that PHP keeps as a string. */
  function AttrName(k: Key, v: Value): string
  {
    match k
    case Name(n) => if IsNumeric(n) then ToStr(v) else n
    case Index(_) => ToStr(v)
  }

  /** `attributeElement($key, $value)`: nothing for a null value. */
  function AttributeElement(esc: Value -> string, k: Key, v: Value): (r: Option<string>)
    ensures r.None? <==> v == Null
  {
    if v == Null then None else Some(AttrName(k, v) + "=\"" + esc(v) + "\"")
  }

  /** The elements `attributes` collects, in insertion order. */
  function Elements(esc: Value -> string, a: seq<Entry>): (r: seq<string>)
    ensures |r| <= |a|
  {
    if |a| == 0 then []
    else
      var e := AttributeElement(esc, a[0].0, a[0].1);
      (if e.Some? then [e.value] else []) + Elements(esc, a[1..])
  }

  /** The value of `attributes($attributes)`. */
  function AttrString(esc: Value -> string, a: seq<Entry>): string
  {
    var els := Elements(esc, a);
    if |els| > 0 then " " + Implode(" ", els) else ""
  }

  /** A reference reading of the same string: every entry with a non-null
      value contributes a space followed by `name="escaped value"`. */
  function SpacedPairs(esc: Value -> string, a: seq<Entry>): string
  {
    if |a| == 0 then "" else Pair(esc, a[0]) + SpacedPairs(esc, a[1..])
  }

  /** The part of one entry: nothing for a null value, else a space and
      `name="escaped value"`. */
  function Pair(esc: Value -> string, e: Entry): string
  {
    if e.1 == Null then "" else " " + AttrName(e.0, e.1) + "=\"" + esc(e.1) + "\""
  }

  /** The elements from position `i` on: that of entry `i`, then the rest. */
  lemma ElementsStep(esc: Value -> string, a: seq<Entry>, i: nat)
    requires i < |a|
    ensures var e := AttributeElement(esc, a[i].0, a[i].1);
      Elements(esc, a[i..]) == (if e.Some? then [e.value] else []) + Elements(esc, a[i + 1..])
  {
    assert a[i..][1..] == a[i + 1..];
  }

  /** `Builder::attributes`: the loop over the entries that collects the
      elements, then the join. */
  method Attributes(esc: Value -> string, a: seq<Entry>) returns (s: string)
    ensures s == AttrString(esc, a)
  {
    var html: seq<string> := [];
    var i := 0;
    while i < |a|
      invariant 0 <= i <= |a|
      invariant html + Elements(esc, a[i..]) == Elements(esc, a)
    {
      var element := AttributeElement(esc, a[i].0, a[i].1);
      ElementsStep(esc, a, i);
      if element.Some? {
        html := html + [element.value];
      }
      i := i + 1;
    }
    assert a[i..] == [];
    assert html + [] == html;
    if |html| > 0 {
      s := " " + Implode(" ", html);
    } else {
      s := "";
    }
  }

  lemma {:induction false} ElementsEmpty(esc: Value -> string, a: seq<Entry>)
    ensures |Elements(esc, a)| == 0 <==> forall j :: 0 <= j < |a| ==> a[j].1 == Null
  {
    if |a| > 0 {
      ElementsEmpty(esc, a[1..]);
      forall j | 1 <= j < |a| ensures a[j].1 == a[1..][j - 1].1 {
      }
    }
  }

  /** The attribute string is empty exactly when every value is null. */
  lemma AttrStringEmpty(esc: Value -> string, a: seq<Entry>)
    ensures AttrString(esc, a) == "" <==> forall j :: 0 <= j < |a| ==> a[j].1 == Null
  {
    ElementsEmpty(esc, a);
  }

  lemma {:induction false} ImplodeCons(x: string, xs: seq<string>)
    ensures " " + Implode(" ", [x] + xs) == " " + x + (if |xs| > 0 then " " + Implode(" ", xs) else "")
  {
    if |xs| > 0 {
      assert ([x] + xs)[1..] == xs;
    }
  }

  /** The join of the collected elements is the concatenation of the
      space-led pairs, in insertion order. */
  lemma {:induction false} AttrStringPairs(esc: Value -> string, a: seq<Entry>)
    ensures AttrString(esc, a) == SpacedPairs(esc, a)
  {
    if |a| > 0 {
      AttrStringPairs(esc, a[1..]);
      var rest := Elements(esc, a[1..]);
      if a[0].1 != Null {
        var e := AttrName(a[0].0, a[0].1) + "=\"" + esc(a[0].1) + "\"";
        assert Elements(esc, a) == [e] + rest;
        ImplodeCons(e, rest);
      } else {
        assert Elements(esc, a) == rest;
      }
    }
  }

  /** Entries render independently: the string of a concatenation is the
      concatenation of the strings. */
  lemma {:induction false} SpacedPairsAppend(esc: Value -> string, a: seq<Entry>, b: seq<Entry>)
    ensures SpacedPairs(esc, a + b) == SpacedPairs(esc, a) + SpacedPairs(esc, b)
  {
    if |a| > 0 {
      assert (a + b)[1..] == a[1..] + b;
      SpacedPairsAppend(esc, a[1..], b);
    } else {
      assert a + b == b;
    }
  }

  /** A string key that PHP keeps as a string but finds numeric prints the
      value as the name, as an integer key does. */
  lemma NumericStringKey(esc: Value -> string)
    ensures AttrString(esc, [(Name("05"), Str("x"))]) == " x=\"" + esc(Str("x")) + "\""
  {
    NumericLeadingZero();
    SingleAttribute(esc, Name("05"), Str("x"));
  }

  /** A single entry: a named key prints `key="e(value)"`, a numeric key
      (an integer, or a numeric string) prints the value as the name, a null
      value prints nothing. */
  lemma SingleAttribute(esc: Value -> string, k: Key, v: Value)
    ensures v == Null ==> AttrString(esc, [(k, v)]) == ""
    ensures v != Null && k.Name? && !IsNumeric(k.name) ==> AttrString(esc, [(k, v)]) == " " + k.name + "=\"" + esc(v) + "\""
    ensures v != Null && (k.Index? || IsNumeric(k.name)) ==> AttrString(esc, [(k, v)]) == " " + ToStr(v) + "=\"" + esc(v) + "\""
  {
    AttrStringPairs(esc, [(k, v)]);
    assert [(k, v)][1..] == [];
  }
}
