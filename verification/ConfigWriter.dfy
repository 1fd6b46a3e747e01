/** Printing a configuration tree: _write_value and _write_config of libdm-config.c. */
module ConfigWriter {
  import opened ConfigTree
  import opened StringQuoting

  const MAX_INDENT := 32

  function DigitChar(d: nat): char
    requires d < 10
  {
    '0' + d as char
  }

  /** The digits of n in base eight or ten, most significant first. */
  function Digits(n: nat, octal: bool): (s: string)
    ensures s != [] && forall c :: c in s ==> '0' <= c <= '9'
  {
    if n < (if octal then 8 else 10) then [DigitChar(n)]
    else if octal then Digits(n / 8, octal) + [DigitChar(n % 8)]
    else Digits(n / 10, octal) + [DigitChar(n % 10)]
  }

  function Decimal(i: int): string {
    if i < 0 then "-" + Digits(-i, false) else Digits(i, false)
  }

  /** The conversion to uint64_t that octal printing makes. */
  function AsUnsigned(i: int): nat {
    i % 0x1_0000_0000_0000_0000
  }

  function WriteValue(v: Value): string {
    match v
    case Int(i, f) => if f.typed then "0" + Digits(AsUnsigned(i), true) else Decimal(i)
    case Str(s, f) => if f.typed then Escape(s) else "\"" + Escape(s) + "\""
    case EmptyArray(f) => if f.extraSpaces then "[ ]" else "[]"
  }

  /** The elements of an array. A later empty-array value ends the list. */
  function WriteItems(vs: seq<Value>, sp: string): string {
    if vs == [] || vs[0].EmptyArray? then ""
    else
      WriteValue(vs[0])
      + (if |vs| > 1 && !vs[1].EmptyArray? then "," + sp else "")
      + WriteItems(vs[1..], sp)
  }

  function Spacing(v: Value): string {
    if v.format.extraSpaces then " " else ""
  }

  function WriteValues(vs: seq<Value>): string
    requires vs != []
  {
    var sp := Spacing(vs[0]);
    if |vs| > 1 then "[" + sp + WriteItems(vs, sp) + sp + "]"
    else if vs[0].format.asArray && !vs[0].EmptyArray? then "[" + sp + WriteValue(vs[0]) + sp + "]"
    else WriteValue(vs[0])
  }

  predicate NeedsQuotes(key: string) {
    '#' in key || '"' in key || '!' in key
  }

  function KeyText(key: string): string {
    if NeedsQuotes(key) then "\"" + Escape(key) + "\"" else key
  }

  function Indent(level: nat): string {
    seq(if level < MAX_INDENT then level else MAX_INDENT, _ => '\t')
  }

  function WriteNode(n: Node, level: nat): string
    decreases n, 2
  {
    Indent(level) + KeyText(n.key) + WriteBody(n, level) + "\n"
  }

  /** What follows the key: a section, or the values. */
  function WriteBody(n: Node, level: nat): string
    decreases n, 1
  {
    if n.values == [] then
      " {\n" + WriteForest(n.child, level + 1) + Indent(level) + "}"
    else
      Spacing(n.values[0]) + "=" + Spacing(n.values[0]) + WriteValues(n.values)
  }

  function WriteForest(ns: seq<Node>, level: nat): string
    decreases ns, 0
  {
    if ns == [] then "" else WriteNode(ns[0], level) + WriteForest(ns[1..], level)
  }

  // ---- the code ----

  class ConfigOutput {
    var text: string   // the lines handed to putline so far, and the open one

    constructor ()
      ensures text == []
    {
      text := [];
    }

    method Append(s: string)
      modifies this
      ensures text == old(text) + s
    {
      text := text + s;
    }
  }

  method WriteItemsLoop(out: ConfigOutput, vs: seq<Value>, sp: string)
    modifies out
    ensures out.text == old(out.text) + WriteItems(vs, sp)
  {
    var i := 0;
    ghost var was := out.text;
    assert vs[0..] == vs;
    while i < |vs| && !vs[i].EmptyArray?
      invariant i <= |vs|
      invariant out.text + WriteItems(vs[i..], sp) == was + WriteItems(vs, sp)
    {
      ghost var before := out.text;
      ItemsStep(vs, i, sp, before);
      out.Append(WriteValue(vs[i]));
      i := i + 1;
      if i < |vs| && !vs[i].EmptyArray? {
        out.Append("," + sp);
      }
    }
    assert WriteItems(vs[i..], sp) == "";
  }

  lemma ItemsStep(vs: seq<Value>, i: nat, sp: string, before: string)
    requires i < |vs| && !vs[i].EmptyArray?
    ensures before + WriteItems(vs[i..], sp)
         == (if i + 1 < |vs| && !vs[i + 1].EmptyArray?
             then before + WriteValue(vs[i]) + ("," + sp) else before + WriteValue(vs[i]))
            + WriteItems(vs[i + 1..], sp)
  {
    var w, rest := WriteValue(vs[i]), WriteItems(vs[i + 1..], sp);
    assert vs[i..][1..] == vs[i + 1..];
    if i + 1 < |vs| && !vs[i + 1].EmptyArray? {
      assert vs[i..][1] == vs[i + 1];
      assert WriteItems(vs[i..], sp) == w + ("," + sp) + rest;
      Cat(before, w + ("," + sp), rest);
      Cat(before, w, "," + sp);
    } else {
      assert |vs[i..]| > 1 ==> vs[i..][1] == vs[i + 1];
      assert WriteItems(vs[i..], sp) == w + "" + rest == w + rest;
      Cat(before, w, rest);
    }
  }

  method WriteValuesOf(out: ConfigOutput, vs: seq<Value>)
    requires vs != []
    modifies out
    ensures out.text == old(out.text) + WriteValues(vs)
  {
    hide WriteItems, WriteValue;
    var sp := Spacing(vs[0]);
    if |vs| > 1 {
      out.Append("[" + sp);
      WriteItemsLoop(out, vs, sp);
      out.Append(sp + "]");
      assert out.text == old(out.text) + ("[" + sp) + WriteItems(vs, sp) + (sp + "]");
      assert out.text == old(out.text) + ("[" + sp + WriteItems(vs, sp) + sp + "]");
    } else if vs[0].format.asArray && !vs[0].EmptyArray? {
      out.Append("[" + sp + WriteValue(vs[0]) + sp + "]");
    } else {
      out.Append(WriteValue(vs[0]));
    }
  }

  lemma Cat(a: string, b: string, c: string)
    ensures a + b + c == a + (b + c)
  {
  }

  method WriteBodyOf(n: Node, out: ConfigOutput, level: nat)
    modifies out
    ensures out.text == old(out.text) + WriteBody(n, level)
    decreases n, 1
  {
    ghost var before := out.text;
    if n.values == [] {
      out.Append(" {\n");
      WriteConfig(n.child, false, out, level + 1);
      out.Append(Indent(level) + "}");
      Cat(before, " {\n", WriteForest(n.child, level + 1));
      Cat(before, " {\n" + WriteForest(n.child, level + 1), Indent(level) + "}");
      Cat(" {\n" + WriteForest(n.child, level + 1), Indent(level), "}");
    } else {
      var sp := Spacing(n.values[0]);
      out.Append(sp + "=" + sp);
      WriteValuesOf(out, n.values);
      Cat(before, sp + "=" + sp, WriteValues(n.values));
    }
  }

  method WriteOne(n: Node, out: ConfigOutput, level: nat)
    modifies out
    ensures out.text == old(out.text) + WriteNode(n, level)
    decreases n, 2
  {
    ghost var before := out.text;
    var head := Indent(level) + KeyText(n.key);
    out.Append(head);
    WriteBodyOf(n, out, level);
    out.Append("\n");
    Cat(before, head, WriteBody(n, level));
    Cat(before, head + WriteBody(n, level), "\n");
  }

  /** _write_config: the siblings from the given one on, or only that one. */
  method WriteConfig(ns: seq<Node>, onlyOne: bool, out: ConfigOutput, level: nat)
    modifies out
    ensures out.text == old(out.text) + WriteForest(if onlyOne && ns != [] then ns[..1] else ns, level)
    decreases ns, 0
  {
    if ns == [] {
      return;
    }
    var i := 0;
    ghost var was, all := out.text, WriteForest(ns, level);
    assert ns[0..] == ns;
    while true
      invariant i < |ns| && (onlyOne ==> i == 0)
      invariant out.text + WriteForest(ns[i..], level) == was + all
      invariant i == 0 ==> out.text == was
      decreases |ns| - i
    {
      ghost var before := out.text;
      assert ns[i..][1..] == ns[i + 1..];
      Cat(before, WriteNode(ns[i], level), WriteForest(ns[i + 1..], level));
      WriteOne(ns[i], out, level);
      i := i + 1;
      if onlyOne {
        OneNode(ns[0], level);
        assert ns[..1] == [ns[0]];
        return;
      }
      if i == |ns| {
        assert ns[i..] == [];
        return;
      }
    }
  }

  lemma OneNode(n: Node, level: nat)
    ensures WriteForest([n], level) == WriteNode(n, level)
  {
    assert [n][1..] == [];
  }
}
