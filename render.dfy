/** Field rendering: `key_to_html` (main.py:38-56) and the list of fragments
    that `make_template` builds from the schema (main.py:66). */
module Render {
  import opened Schema
  import opened Html

  /** Why rendering a field fails: the `ValueError` for an unrecognised type, or
      the `KeyError` of a select descriptor without an `options` list. */
  datatype RenderError = UnknownKeyType(kind: string) | MissingOptions(name: string)

  predicate KnownKind(kind: string)
  {
    kind == "str" || kind == "multiline_str" || kind == "checkbox" || kind == "select"
  }

  /** The descriptors for which `key_to_html` returns instead of raising. */
  predicate Renderable(key: Field)
  {
    KnownKind(Kind(key)) && (Kind(key) == "select" ==> key.options.Some?)
  }

  const KeyOpen: string := "<div class=\"key\">"
  const KeyClose: string := "</div>"

  /** One `<option>` of a select, marked ` selected` when it equals the stored value. */
  function OptionHtml(option: string, value: Value): string
  {
    "<option value=\"" + option + "\"" + (if value == Str(option) then " selected" else "") + ">"
      + option + "</option>"
  }

  /** The options of a select, one per line, in configuration order. */
  function OptionsHtml(options: seq<string>, value: Value): string
  {
    Join("\n", seq(|options|, i requires 0 <= i < |options| => OptionHtml(options[i], value)))
  }

  /** The `key_html` that `key_to_html` builds for each known field type, by
      string interpolation exactly as the source's f-strings do. */
  function LabelHtml(key: Field, data: Record): Result<string, RenderError>
  {
    var kind := Kind(key);
    var title := Title(key);
    var value := Stored(data, key.name);
    if kind == "str" then
      Success("<label>" + title + "<input type=\"text\" name=" + key.name
              + " value='" + Display(value) + "'></label>")
    else if kind == "multiline_str" then
      Success("<label>" + title + "<textarea name=" + key.name + ">"
              + Display(value) + "</textarea></label>")
    else if kind == "checkbox" then
      Success("<label><input type=\"checkbox\" name=" + key.name
              + (if Truthy(value) then " checked" else "") + ">" + title + "</label>")
    else if kind == "select" then
      match key.options
      case None => Failure(MissingOptions(key.name))
      case Some(options) =>
        Success("<label>" + title + "<select name=\"" + key.name + "\">"
                + OptionsHtml(options, value) + "</select></label>")
    else
      Failure(UnknownKeyType(kind))
  }

  /** `key_to_html(key, data)`: the field's `key_html` wrapped in its `div`;
      an unknown type or a select without options raises. */
  function KeyToHtml(key: Field, data: Record): (r: Result<string, RenderError>)
    ensures r.Success? <==> Renderable(key)
    ensures !KnownKind(Kind(key)) ==> r == Failure(UnknownKeyType(Kind(key)))
    ensures KnownKind(Kind(key)) && r.Failure? ==> r == Failure(MissingOptions(key.name))
  {
    match LabelHtml(key, data)
    case Failure(e) => Failure(e)
    case Success(html) => Success(KeyOpen + html + KeyClose)
  }

  /** Every fragment that renders is wrapped in `<div class="key">...</div>`. */
  lemma FragmentIsKeyDiv(key: Field, data: Record)
    requires Renderable(key)
    ensures var html := KeyToHtml(key, data).value;
      |KeyOpen| + |KeyClose| <= |html|
      && html[..|KeyOpen|] == KeyOpen
      && html[|html| - |KeyClose|..] == KeyClose
  {
  }

  // ----- the same fragment as an element tree -----

  function OptionNode(option: string, value: Value): Node
  {
    Elem("option",
         [Valued("value", option, Double)] + (if value == Str(option) then [Flag("selected")] else []),
         [Text(option)])
  }

  function OptionNodes(options: seq<string>, value: Value): seq<Node>
  {
    seq(|options|, i requires 0 <= i < |options| => OptionNode(options[i], value))
  }

  /** The form control of a field: a text input, a textarea, a checkbox input
      or a select, named after the field and pre-filled from the stored value. */
  function Control(key: Field, data: Record): Node
    requires Renderable(key)
  {
    var kind := Kind(key);
    var value := Stored(data, key.name);
    if kind == "str" then
      Void("input", [Valued("type", "text", Double), Valued("name", key.name, Bare),
                     Valued("value", Display(value), Single)])
    else if kind == "multiline_str" then
      Elem("textarea", [Valued("name", key.name, Bare)], [Text(Display(value))])
    else if kind == "checkbox" then
      Void("input", [Valued("type", "checkbox", Double), Valued("name", key.name, Bare)]
                    + (if Truthy(value) then [Flag("checked")] else []))
    else
      Elem("select", [Valued("name", key.name, Double)],
           Interleave(Text("\n"), OptionNodes(key.options.value, value)))
  }

  /** The label around the control; a checkbox's title follows its box. */
  function LabelNode(key: Field, data: Record): Node
    requires Renderable(key)
  {
    if Kind(key) == "checkbox" then Elem("label", [], [Control(key, data), Text(Title(key))])
    else Elem("label", [], [Text(Title(key)), Control(key, data)])
  }

  function KeyTree(key: Field, data: Record): Node
    requires Renderable(key)
  {
    Elem("div", [Valued("class", "key", Double)], [LabelNode(key, data)])
  }

  /** The tree of each field of the schema, in schema order. */
  function KeyTrees(keys: seq<Field>, data: Record): seq<Node>
    requires forall i :: 0 <= i < |keys| ==> Renderable(keys[i])
  {
    seq(|keys|, i requires 0 <= i < |keys| && Renderable(keys[i]) => KeyTree(keys[i], data))
  }

  // ----- properties -----

  lemma OptionAttrsText(option: string, selected: bool)
    ensures AttrsText([Valued("value", option, Double)] + (if selected then [Flag("selected")] else []))
         == " value=\"" + option + "\"" + (if selected then " selected" else "")
  {
    var flag := if selected then [Flag("selected")] else [];
    AttrsTextCons(Valued("value", option, Double), flag);
    assert AttrText(Valued("value", option, Double)) == " value=\"" + option + "\"";
    if selected {
      assert AttrsText(flag) == " selected" + AttrsText([]);
    }
  }

  lemma OptionHtmlIsNode(option: string, value: Value)
    ensures Serialize(OptionNode(option, value)) == OptionHtml(option, value)
  {
    var selected := value == Str(option);
    var attrs := [Valued("value", option, Double)] + (if selected then [Flag("selected")] else []);
    SerializeTextElem("option", attrs, option);
    OptionAttrsText(option, selected);
    OptionTagText(option, if selected then " selected" else "");
  }

  // The lemmas from here to `AttrsTextCons` only equate two spellings of the
  // same markup: the concatenation the serializer builds and the literal the
  // f-strings write. They are steps of the `...IsNode` proofs below, kept
  // small so that each string equation is cheap for the solver.

  lemma OptionTagText(option: string, flag: string)
    ensures "<" + "option" + (" value=\"" + option + "\"" + flag) + ">" + option + "</" + "option" + ">"
         == "<option value=\"" + option + "\"" + flag + ">" + option + "</option>"
  {
  }

  lemma KeyOpenCloseText(x: string)
    ensures "<" + "div" + (" " + "class" + "=" + ("\"" + "key" + "\"") + "") + ">" + x + "</" + "div" + ">"
         == KeyOpen + x + KeyClose
  {
  }

  /** The `<label>` element with no attributes, written out. */
  lemma LabelWrapText(x: string)
    ensures "<" + "label" + "" + ">" + x + "</" + "label" + ">" == "<label>" + x + "</label>"
  {
  }

  lemma TextTypeAttrText()
    ensures AttrText(Valued("type", "text", Double)) == " type=\"text\""
  {
  }

  lemma CheckboxTypeAttrText()
    ensures AttrText(Valued("type", "checkbox", Double)) == " type=\"checkbox\""
  {
  }

  lemma BareNameAttrText(name: string)
    ensures AttrText(Valued("name", name, Bare)) == " name=" + name
  {
  }

  lemma SingleValueAttrText(v: string)
    ensures AttrText(Valued("value", v, Single)) == " value='" + v + "'"
  {
  }

  lemma StrInputText(name: string, v: string)
    ensures "<" + "input" + (" type=\"text\"" + (" name=" + name + (" value='" + v + "'" + ""))) + ">"
         == "<input type=\"text\" name=" + name + " value='" + v + "'>"
  {
  }

  lemma StrLabelText(title: string, name: string, v: string)
    ensures "<label>" + (title + ("<input type=\"text\" name=" + name + " value='" + v + "'>")) + "</label>"
         == "<label>" + title + "<input type=\"text\" name=" + name + " value='" + v + "'></label>"
  {
  }

  lemma TextareaText(name: string, v: string)
    ensures "<" + "textarea" + (" name=" + name + "") + ">" + v + "</" + "textarea" + ">"
         == "<textarea name=" + name + ">" + v + "</textarea>"
  {
  }

  lemma MultilineLabelText(title: string, name: string, v: string)
    ensures "<label>" + (title + ("<textarea name=" + name + ">" + v + "</textarea>")) + "</label>"
         == "<label>" + title + "<textarea name=" + name + ">" + v + "</textarea></label>"
  {
  }

  lemma CheckboxInputText(name: string, flag: string)
    ensures "<" + "input" + (" type=\"checkbox\"" + (" name=" + name + flag)) + ">"
         == "<input type=\"checkbox\" name=" + name + flag + ">"
  {
  }

  lemma CheckboxLabelText(title: string, name: string, flag: string)
    ensures "<label>" + (("<input type=\"checkbox\" name=" + name + flag + ">") + title) + "</label>"
         == "<label><input type=\"checkbox\" name=" + name + flag + ">" + title + "</label>"
  {
  }

  lemma SelectTagText(name: string, options: string)
    ensures "<" + "select" + (" " + "name" + "=" + ("\"" + name + "\"") + "") + ">" + options + "</" + "select" + ">"
         == "<select name=\"" + name + "\">" + options + "</select>"
  {
  }

  lemma SelectLabelText(title: string, name: string, options: string)
    ensures "<label>" + (title + ("<select name=\"" + name + "\">" + options + "</select>")) + "</label>"
         == "<label>" + title + "<select name=\"" + name + "\">" + options + "</select></label>"
  {
  }

  /** The attribute text of a list of attributes is that of each in turn. */
  lemma AttrsTextCons(a: Attr, rest: seq<Attr>)
    ensures AttrsText([a] + rest) == AttrText(a) + AttrsText(rest)
  {
    assert ([a] + rest)[1..] == rest;
  }

  lemma StrLabelIsNode(key: Field, data: Record)
    requires Kind(key) == "str"
    ensures LabelHtml(key, data) == Success(Serialize(LabelNode(key, data)))
  {
    var v := Display(Stored(data, key.name));
    var c := Control(key, data);
    SerializeTwoChildren("label", [], Text(Title(key)), c);
    LabelWrapText(Title(key) + Serialize(c));
    var a, b, d := Valued("type", "text", Double), Valued("name", key.name, Bare), Valued("value", v, Single);
    assert c.attrs == [a] + ([b] + ([d] + []));
    AttrsTextCons(a, [b] + ([d] + []));
    AttrsTextCons(b, [d] + []);
    AttrsTextCons(d, []);
    TextTypeAttrText();
    BareNameAttrText(key.name);
    SingleValueAttrText(v);
    StrInputText(key.name, v);
    StrLabelText(Title(key), key.name, v);
  }

  lemma MultilineLabelIsNode(key: Field, data: Record)
    requires Kind(key) == "multiline_str"
    ensures LabelHtml(key, data) == Success(Serialize(LabelNode(key, data)))
  {
    var v := Display(Stored(data, key.name));
    var c := Control(key, data);
    SerializeTwoChildren("label", [], Text(Title(key)), c);
    LabelWrapText(Title(key) + Serialize(c));
    SerializeTextElem("textarea", [Valued("name", key.name, Bare)], v);
    AttrsTextCons(Valued("name", key.name, Bare), []);
    BareNameAttrText(key.name);
    TextareaText(key.name, v);
    MultilineLabelText(Title(key), key.name, v);
  }

  lemma CheckboxControlText(key: Field, data: Record)
    requires Kind(key) == "checkbox"
    ensures Serialize(Control(key, data))
         == "<input type=\"checkbox\" name=" + key.name
            + (if Truthy(Stored(data, key.name)) then " checked" else "") + ">"
  {
    var c := Control(key, data);
    var flag := if Truthy(Stored(data, key.name)) then [Flag("checked")] else [];
    var a, b := Valued("type", "checkbox", Double), Valued("name", key.name, Bare);
    assert c.attrs == [a] + ([b] + flag);
    AttrsTextCons(a, [b] + flag);
    AttrsTextCons(b, flag);
    CheckboxTypeAttrText();
    BareNameAttrText(key.name);
    assert AttrsText(flag) == if Truthy(Stored(data, key.name)) then " checked" else "";
    CheckboxInputText(key.name, AttrsText(flag));
  }

  lemma CheckboxLabelIsNode(key: Field, data: Record)
    requires Kind(key) == "checkbox"
    ensures LabelHtml(key, data) == Success(Serialize(LabelNode(key, data)))
  {
    var c := Control(key, data);
    SerializeTwoChildren("label", [], c, Text(Title(key)));
    LabelWrapText(Serialize(c) + Title(key));
    CheckboxControlText(key, data);
    CheckboxLabelText(Title(key), key.name, if Truthy(Stored(data, key.name)) then " checked" else "");
  }

  /** The options of a select, written out, are the interpolated option lines. */
  lemma SelectControlText(key: Field, data: Record)
    requires Kind(key) == "select" && key.options.Some?
    ensures Serialize(Control(key, data))
         == "<select name=\"" + key.name + "\">" + OptionsHtml(key.options.value, Stored(data, key.name)) + "</select>"
  {
    var value := Stored(data, key.name);
    var c := Control(key, data);
    var options := key.options.value;
    var nodes := OptionNodes(options, value);
    SerializeInterleaved("\n", nodes);
    forall i | 0 <= i < |options|
      ensures SerializeEach(nodes)[i] == OptionHtml(options[i], value)
    {
      OptionHtmlIsNode(options[i], value);
    }
    assert SerializeEach(nodes)
        == seq(|options|, i requires 0 <= i < |options| => OptionHtml(options[i], value));
    var nameAttr := [Valued("name", key.name, Double)];
    assert AttrsText(nameAttr) == AttrText(nameAttr[0]) + AttrsText([]);
    assert Serialize(c) == "<" + "select" + AttrsText(nameAttr) + ">"
      + OptionsHtml(options, value) + "</" + "select" + ">";
    SelectTagText(key.name, OptionsHtml(options, value));
  }

  lemma SelectLabelIsNode(key: Field, data: Record)
    requires Kind(key) == "select" && key.options.Some?
    ensures LabelHtml(key, data) == Success(Serialize(LabelNode(key, data)))
  {
    var c := Control(key, data);
    SerializeTwoChildren("label", [], Text(Title(key)), c);
    LabelWrapText(Title(key) + Serialize(c));
    SelectControlText(key, data);
    SelectLabelText(Title(key), key.name, OptionsHtml(key.options.value, Stored(data, key.name)));
  }

  /** The interpolated fragment is the markup of the element tree: `<div class="key">`
      around a `<label>` holding the title and the field's control. */
  lemma KeyToHtmlIsTree(key: Field, data: Record)
    requires Renderable(key)
    ensures KeyToHtml(key, data) == Success(Serialize(KeyTree(key, data)))
  {
    var kind := Kind(key);
    if kind == "str" {
      StrLabelIsNode(key, data);
    } else if kind == "multiline_str" {
      MultilineLabelIsNode(key, data);
    } else if kind == "checkbox" {
      CheckboxLabelIsNode(key, data);
    } else {
      SelectLabelIsNode(key, data);
    }
    SerializeOneChild("div", [Valued("class", "key", Double)], LabelNode(key, data));
    KeyOpenCloseText(Serialize(LabelNode(key, data)));
  }

  /** The control is named after the field. */
  lemma ControlName(key: Field, data: Record)
    requires Renderable(key)
    ensures AttrValue(Control(key, data).attrs, "name") == Some(key.name)
  {
    var attrs := Control(key, data).attrs;
    if Kind(key) == "str" || Kind(key) == "checkbox" {
      assert attrs[0].name == "type";
      assert AttrValue(attrs, "name") == AttrValue(attrs[1..], "name");
    }
  }

  /** The label's only element is the control, and its text is the title. */
  lemma LabelChildren(key: Field, data: Record)
    requires Renderable(key)
    ensures Elements(LabelNode(key, data).children) == [Control(key, data)]
    ensures Text(Title(key)) in LabelNode(key, data).children
  {
    var c, t := Control(key, data), Text(Title(key));
    assert Elements([t]) == [] + Elements([]);
    assert Elements([c]) == [c] + Elements([]);
    if Kind(key) == "checkbox" {
      assert Elements([c, t]) == [c] + Elements([t]);
    } else {
      assert Elements([t, c]) == [] + Elements([c]);
    }
  }

  /** Every fragment is one `<div class="key">` holding one `<label>`, whose
      only element is the field's control and which shows the field's title. */
  lemma KeyTreeShape(key: Field, data: Record)
    requires Renderable(key)
    ensures KeyTree(key, data).Elem? && KeyTree(key, data).tag == "div"
    ensures AttrValue(KeyTree(key, data).attrs, "class") == Some("key")
    ensures Elements(KeyTree(key, data).children) == [LabelNode(key, data)]
    ensures LabelNode(key, data).Elem? && LabelNode(key, data).tag == "label"
    ensures Elements(LabelNode(key, data).children) == [Control(key, data)]
    ensures Text(Title(key)) in LabelNode(key, data).children
    ensures AttrValue(Control(key, data).attrs, "name") == Some(key.name)
  {
    var l := LabelNode(key, data);
    assert Elements([l]) == [l] + Elements([]);
    LabelChildren(key, data);
    ControlName(key, data);
  }

  /** A `str` field is a text input and a `multiline_str` field a textarea,
      each carrying the stored value (or "" when there is none) as written by `str()`. */
  lemma TextFieldsPrefilled(key: Field, data: Record)
    requires Kind(key) == "str" || Kind(key) == "multiline_str"
    ensures Kind(key) == "str" ==>
      Control(key, data).Void? && Control(key, data).tag == "input"
      && AttrValue(Control(key, data).attrs, "type") == Some("text")
      && AttrValue(Control(key, data).attrs, "value") == Some(Display(Stored(data, key.name)))
    ensures Kind(key) == "multiline_str" ==>
      Control(key, data).Elem? && Control(key, data).tag == "textarea"
      && Control(key, data).children == [Text(Display(Stored(data, key.name)))]
  {
    var attrs := Control(key, data).attrs;
    if Kind(key) == "str" {
      assert AttrValue(attrs, "value") == AttrValue(attrs[1..], "value");
      assert AttrValue(attrs[1..], "value") == AttrValue(attrs[1..][1..], "value");
    }
  }

  /** A checkbox is a checkbox input, and it carries the `checked` flag exactly
      when the stored value is truthy. */
  lemma CheckboxCheckedIffTruthy(key: Field, data: Record)
    requires Kind(key) == "checkbox"
    ensures Control(key, data).Void? && Control(key, data).tag == "input"
    ensures AttrValue(Control(key, data).attrs, "type") == Some("checkbox")
    ensures HasFlag(Control(key, data), "checked") <==> Truthy(Stored(data, key.name))
  {
    var c := Control(key, data);
    if !Truthy(Stored(data, key.name)) {
      assert forall a :: a in c.attrs ==> a.Valued?;
    }
  }

  /** A select has one `<option>` per configured option, in configuration order,
      each showing and submitting that option, and an option is marked
      `selected` exactly when it equals the stored value. */
  lemma {:induction false} SelectOptionsInOrder(key: Field, data: Record)
    requires Kind(key) == "select" && key.options.Some?
    ensures Control(key, data).Elem? && Control(key, data).tag == "select"
    ensures |Elements(Control(key, data).children)| == |key.options.value|
    ensures forall i :: 0 <= i < |key.options.value| ==>
      var o := Elements(Control(key, data).children)[i];
      o.Elem? && o.tag == "option"
      && AttrValue(o.attrs, "value") == Some(key.options.value[i])
      && o.children == [Text(key.options.value[i])]
      && (HasFlag(o, "selected") <==> Stored(data, key.name) == Str(key.options.value[i]))
  {
    var options := key.options.value;
    var value := Stored(data, key.name);
    var nodes := OptionNodes(options, value);
    ElementsOfInterleaved("\n", nodes);
    forall i | 0 <= i < |options|
      ensures HasFlag(nodes[i], "selected") <==> value == Str(options[i])
    {
      if value != Str(options[i]) {
        assert nodes[i].attrs == [Valued("value", options[i], Double)];
      }
    }
  }

  /** With distinct options, at most one option of a select is marked `selected`. */
  lemma SelectAtMostOneSelected(key: Field, data: Record, i: nat, j: nat)
    requires Kind(key) == "select" && key.options.Some?
    requires forall p, q :: 0 <= p < q < |key.options.value| ==> key.options.value[p] != key.options.value[q]
    requires i < j < |key.options.value|
    ensures |Elements(Control(key, data).children)| == |key.options.value|
    ensures !(HasFlag(Elements(Control(key, data).children)[i], "selected")
              && HasFlag(Elements(Control(key, data).children)[j], "selected"))
  {
    SelectOptionsInOrder(key, data);
  }

  /** An omitted `type` renders as `"str"`. */
  lemma KindDefaultsToStr(key: Field, data: Record)
    requires key.kind == None
    ensures KeyToHtml(key, data) == KeyToHtml(key.(kind := Some("str")), data)
    ensures KeyToHtml(key, data).Success?
  {
  }

  /** An omitted `title` renders as the field's name. */
  lemma TitleDefaultsToName(key: Field, data: Record)
    requires key.title == None
    ensures KeyToHtml(key, data) == KeyToHtml(key.(title := Some(key.name)), data)
  {
  }

  /** A field with no stored value renders as if the empty string were stored. */
  lemma MissingValueIsEmpty(key: Field, data: Record)
    requires key.name !in data
    ensures KeyToHtml(key, data) == KeyToHtml(key, data[key.name := Str("")])
  {
  }

  /** Only the field's own entry of the record affects its fragment. */
  lemma OnlyOwnValueMatters(key: Field, data: Record, other: Record)
    requires Stored(data, key.name) == Stored(other, key.name)
    ensures KeyToHtml(key, data) == KeyToHtml(key, other)
  {
  }

  /** A list comprehension over the fields whose element expression may raise:
      the results in field order, or the first error raised. */
  function RenderAll(keys: seq<Field>, render: Field -> Result<string, RenderError>): (r: Result<seq<string>, RenderError>)
    ensures r.Success? <==> forall i :: 0 <= i < |keys| ==> render(keys[i]).Success?
    ensures r.Success? ==>
      |r.value| == |keys|
      && forall i :: 0 <= i < |keys| ==> render(keys[i]) == Success(r.value[i])
    ensures r.Failure? ==>
      exists i :: 0 <= i < |keys| && render(keys[i]) == Failure(r.error)
                  && forall j :: 0 <= j < i ==> render(keys[j]).Success?
  {
    if keys == [] then Success([])
    else
      var first := render(keys[0]);
      if first.Failure? then Failure(first.error)
      else
        var rest := RenderAll(keys[1..], render);
        if rest.Failure? then
          assert forall i :: 0 <= i < |keys[1..]| ==> keys[1..][i] == keys[i + 1];
          Failure(rest.error)
        else
          Success([first.value] + rest.value)
  }

  /** `[key_to_html(key, data) for key in keys]`: one fragment per schema
      entry, in schema order; the first field that fails aborts the list. */
  function RenderKeys(keys: seq<Field>, data: Record): (r: Result<seq<string>, RenderError>)
    ensures r.Success? <==> forall i :: 0 <= i < |keys| ==> Renderable(keys[i])
    ensures r.Success? ==>
      |r.value| == |keys|
      && forall i :: 0 <= i < |keys| ==> KeyToHtml(keys[i], data) == Success(r.value[i])
    ensures r.Failure? ==>
      exists i :: 0 <= i < |keys| && KeyToHtml(keys[i], data) == Failure(r.error)
                  && forall j :: 0 <= j < i ==> Renderable(keys[j])
  {
    RenderAll(keys, key => KeyToHtml(key, data))
  }
}
