/** The one HTML shape the renderer emits, `<name>text</name>`, and a reader
    for it. The reader is the inverse of serialization on elements whose text
    holds no `<`: it is how the model states that escaped text cannot open or
    close a tag. */
module Html {
  import opened Wrappers
  import opened Seqs

  datatype Element = Element(name: string, text: string)

  /** The template `<name>${text}</name>`. */
  function Serialize(e: Element): string {
    "<" + (e.name + (">" + (e.text + CloseTag(e.name))))
  }

  function CloseTag(name: string): string {
    "</" + name + ">"
  }

  /** An element followed by more text, with the concatenation regrouped to
      the right. */
  lemma SerializeThen(e: Element, rest: string)
    ensures Serialize(e) + rest == "<" + (e.name + (">" + (e.text + (CloseTag(e.name) + rest))))
  {
    var c := CloseTag(e.name);
    AppendAssoc(e.text, c, rest);
    AppendAssoc(">", e.text + c, rest);
    AppendAssoc(e.name, ">" + (e.text + c), rest);
    AppendAssoc("<", e.name + (">" + (e.text + c)), rest);
  }

  /** Fragments joined with no separator, in order. */
  function SerializeAll(es: seq<Element>): string {
    if es == [] then [] else Serialize(es[0]) + SerializeAll(es[1..])
  }

  /** An element the reader can recover: the name ends at the first `>` and
      the text ends at the first `<`. */
  predicate Readable(e: Element) {
    '>' !in e.name && '<' !in e.text
  }

  /** Splits `s` before its first `c` (or at its end when there is none). */
  function SplitAt(s: string, c: char): (r: (string, string))
    ensures r.0 + r.1 == s
    ensures c !in r.0
    ensures r.1 == [] || r.1[0] == c
  {
    if s == [] then ([], [])
    else if s[0] == c then ([], s)
    else
      var (a, b) := SplitAt(s[1..], c);
      assert [s[0]] + (a + b) == s;
      ([s[0]] + a, b)
  }

  lemma {:induction false} SplitAtUnique(a: string, b: string, c: char)
    requires c !in a
    requires b == [] || b[0] == c
    ensures SplitAt(a + b, c) == (a, b)
  {
    if a != [] {
      AppendTail(a, b);
      SplitAtUnique(a[1..], b, c);
      assert [a[0]] + a[1..] == a;
    } else {
      AppendEmpty(a, b);
    }
  }

  /** Reads one element off the front of `s`; whatever it reads, `s` is that
      element followed by the remainder. */
  function ParseElement(s: string): (r: Option<(Element, string)>)
    ensures r.Some? ==> s == Serialize(r.value.0) + r.value.1
    ensures r.Some? ==> |r.value.1| < |s|
  {
    if s == [] || s[0] != '<' then None
    else
      var (name, afterName) := SplitAt(s[1..], '>');
      if afterName == [] then None
      else
        var (text, afterText) := SplitAt(afterName[1..], '<');
        var close := CloseTag(name);
        if |afterText| < |close| || afterText[..|close|] != close then None
        else
          var rest := afterText[|close|..];
          Reassemble(s, name, afterName, text, afterText, rest);
          Some((Element(name, text), rest))
  }

  lemma Reassemble(s: string, name: string, afterName: string, text: string,
                   afterText: string, rest: string)
    requires s != [] && s[0] == '<' && s[1..] == name + afterName
    requires afterName != [] && afterName[0] == '>' && afterName[1..] == text + afterText
    requires |afterText| >= |CloseTag(name)| && afterText[..|CloseTag(name)|] == CloseTag(name)
    requires rest == afterText[|CloseTag(name)|..]
    ensures s == Serialize(Element(name, text)) + rest
  {
    var close := CloseTag(name);
    assert afterText == close + rest;
    ConsTail(afterName);
    ConsTail(s);
    SerializeThen(Element(name, text), rest);
  }

  /** Reads a whole page of consecutive elements; whatever it reads
      serializes back to `s`. */
  function ParsePage(s: string): (r: Option<seq<Element>>)
    ensures r.Some? ==> SerializeAll(r.value) == s
    decreases |s|
  {
    if s == [] then Some([])
    else
      match ParseElement(s)
      case None => None
      case Some((e, rest)) =>
        match ParsePage(rest)
        case None => None
        case Some(es) =>
          AppendTail([e], es);
          Some([e] + es)
  }

  /** A readable element is read back exactly, whatever follows it. */
  lemma ParseSerialize(e: Element, rest: string)
    requires Readable(e)
    ensures ParseElement(Serialize(e) + rest) == Some((e, rest))
  {
    var close := CloseTag(e.name);
    var afterText := close + rest;
    var afterName := ">" + (e.text + afterText);
    var s := "<" + (e.name + afterName);
    SerializeThen(e, rest);
    assert s == Serialize(e) + rest;
    AppendTail("<", e.name + afterName);
    SplitAtUnique(e.name, afterName, '>');
    AppendTail(">", e.text + afterText);
    SplitAtUnique(e.text, afterText, '<');
    assert afterText[..|close|] == close;
    assert afterText[|close|..] == rest;
  }

  /** A page of readable elements is read back exactly. */
  lemma {:induction false} ParsePageSerializeAll(es: seq<Element>)
    requires forall i :: 0 <= i < |es| ==> Readable(es[i])
    ensures ParsePage(SerializeAll(es)) == Some(es)
  {
    if es != [] {
      var s := SerializeAll(es);
      ParseSerialize(es[0], SerializeAll(es[1..]));
      ParsePageSerializeAll(es[1..]);
      assert [es[0]] + es[1..] == es;
    } else {
      assert SerializeAll(es) == [];
    }
  }

  lemma {:induction false} SerializeAllAppend(xs: seq<Element>, ys: seq<Element>)
    ensures SerializeAll(xs + ys) == SerializeAll(xs) + SerializeAll(ys)
  {
    if xs == [] {
      AppendEmpty(xs, ys);
    } else {
      AppendTail(xs, ys);
      SerializeAllAppend(xs[1..], ys);
      AppendAssoc(Serialize(xs[0]), SerializeAll(xs[1..]), SerializeAll(ys));
    }
  }
}
