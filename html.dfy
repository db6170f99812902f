/** A small tree of HTML elements and the text it is written as. It is the
    reference against which the f-string rendering of a field is checked: the
    tree says which element, which attribute and which flag a fragment holds,
    which the bare string cannot say once names and titles are interpolated
    without escaping. */
module Html {
  import opened Schema

  /** How an attribute value is written: `name=v`, `name='v'` or `name="v"`. */
  datatype Quote = Bare | Single | Double

  datatype Attr = Valued(name: string, value: string, quote: Quote) | Flag(name: string)

  datatype Node =
    | Text(text: string)
    | Void(tag: string, attrs: seq<Attr>)
    | Elem(tag: string, attrs: seq<Attr>, children: seq<Node>)

  function Quoted(s: string, q: Quote): string
  {
    match q
    case Bare => s
    case Single => "'" + s + "'"
    case Double => "\"" + s + "\""
  }

  function AttrText(a: Attr): string
  {
    match a
    case Valued(n, v, q) => " " + n + "=" + Quoted(v, q)
    case Flag(n) => " " + n
  }

  function AttrsText(attrs: seq<Attr>): string
  {
    if attrs == [] then "" else AttrText(attrs[0]) + AttrsText(attrs[1..])
  }

  /** The markup a node is written as; no escaping is applied to text or values. */
  function Serialize(n: Node): string
    decreases n
  {
    match n
    case Text(t) => t
    case Void(tag, attrs) => "<" + tag + AttrsText(attrs) + ">"
    case Elem(tag, attrs, children) =>
      "<" + tag + AttrsText(attrs) + ">" + SerializeAll(children) + "</" + tag + ">"
  }

  function SerializeAll(ns: seq<Node>): string
    decreases ns
  {
    if ns == [] then "" else Serialize(ns[0]) + SerializeAll(ns[1..])
  }

  /** The markup of each node of a list, separately. */
  function SerializeEach(ns: seq<Node>): seq<string>
  {
    seq(|ns|, i requires 0 <= i < |ns| => Serialize(ns[i]))
  }

  /** Python's `sep.join(parts)`. */
  function Join(sep: string, parts: seq<string>): string
  {
    if |parts| == 0 then ""
    else if |parts| == 1 then parts[0]
    else parts[0] + sep + Join(sep, parts[1..])
  }

  /** The nodes `ns` with `sep` placed between each two neighbours. */
  function Interleave(sep: Node, ns: seq<Node>): seq<Node>
  {
    if |ns| <= 1 then ns else [ns[0], sep] + Interleave(sep, ns[1..])
  }

  /** The element children of a node list, text nodes dropped, in order. */
  function Elements(ns: seq<Node>): seq<Node>
  {
    if ns == [] then [] else (if ns[0].Text? then [] else [ns[0]]) + Elements(ns[1..])
  }

  /** The value of the first attribute called `name`, if there is one. */
  function AttrValue(attrs: seq<Attr>, name: string): Option<string>
  {
    if attrs == [] then None
    else if attrs[0].Valued? && attrs[0].name == name then Some(attrs[0].value)
    else AttrValue(attrs[1..], name)
  }

  /** The element carries the boolean attribute `name` (such as `checked`). */
  predicate HasFlag(n: Node, name: string)
  {
    !n.Text? && Flag(name) in n.attrs
  }

  lemma SerializeTextElem(tag: string, attrs: seq<Attr>, t: string)
    ensures Serialize(Elem(tag, attrs, [Text(t)])) == "<" + tag + AttrsText(attrs) + ">" + t + "</" + tag + ">"
  {
    assert SerializeAll([Text(t)]) == t;
  }

  lemma SerializeOneChild(tag: string, attrs: seq<Attr>, c: Node)
    ensures Serialize(Elem(tag, attrs, [c])) == "<" + tag + AttrsText(attrs) + ">" + Serialize(c) + "</" + tag + ">"
  {
    assert SerializeAll([c]) == Serialize(c) + SerializeAll([]);
  }

  lemma SerializeTwoChildren(tag: string, attrs: seq<Attr>, a: Node, b: Node)
    ensures Serialize(Elem(tag, attrs, [a, b]))
         == "<" + tag + AttrsText(attrs) + ">" + (Serialize(a) + Serialize(b)) + "</" + tag + ">"
  {
    assert [a, b][1..] == [b];
    assert SerializeAll([b]) == Serialize(b) + SerializeAll([]);
    assert SerializeAll([a, b]) == Serialize(a) + Serialize(b);
  }

  lemma {:induction false} SerializeAllAppend(a: seq<Node>, b: seq<Node>)
    ensures SerializeAll(a + b) == SerializeAll(a) + SerializeAll(b)
  {
    if a == [] {
      assert a + b == b;
    } else {
      assert (a + b)[1..] == a[1..] + b;
      SerializeAllAppend(a[1..], b);
    }
  }

  /** Writing the separated node list gives the joined markup of its parts:
      a separator text node between elements is Python's `sep.join`. */
  lemma {:induction false} SerializeInterleaved(sep: string, ns: seq<Node>)
    ensures SerializeAll(Interleave(Text(sep), ns)) == Join(sep, SerializeEach(ns))
  {
    if |ns| == 0 {
    } else if |ns| == 1 {
      assert SerializeAll(ns) == Serialize(ns[0]) + SerializeAll(ns[1..]);
    } else {
      var rest := Interleave(Text(sep), ns[1..]);
      SerializeInterleaved(sep, ns[1..]);
      SerializeAllAppend([ns[0], Text(sep)], rest);
      assert SerializeAll([ns[0], Text(sep)]) == Serialize(ns[0]) + sep by {
        assert [ns[0], Text(sep)][1..] == [Text(sep)];
        assert SerializeAll([Text(sep)]) == sep + SerializeAll([]);
      }
      assert SerializeEach(ns)[1..] == SerializeEach(ns[1..]);
    }
  }

  /** Separators are text, so the elements of a separated list of elements are
      exactly that list, in the same order. */
  lemma {:induction false} ElementsOfInterleaved(sep: string, ns: seq<Node>)
    requires forall i :: 0 <= i < |ns| ==> !ns[i].Text?
    ensures Elements(Interleave(Text(sep), ns)) == ns
  {
    if |ns| == 0 {
    } else if |ns| == 1 {
      assert Elements(ns) == [ns[0]] + Elements(ns[1..]);
    } else {
      var rest := Interleave(Text(sep), ns[1..]);
      ElementsOfInterleaved(sep, ns[1..]);
      var all := [ns[0], Text(sep)] + rest;
      assert all[1..] == [Text(sep)] + rest;
      assert ([Text(sep)] + rest)[1..] == rest;
      assert Elements(all) == [ns[0]] + Elements(all[1..]);
      assert Elements(all[1..]) == Elements(rest);
      assert [ns[0]] + ns[1..] == ns;
    }
  }
}
