/** Building the device-mapper name of a logical volume out of its volume group,
    name and layer, and splitting it again in place (libdm-string.c). */
module LvmName {
  import opened CStrings
  import opened StringQuoting

  function QuoteHyphens(s: string): string { Quote(s, '-', '-', false) }

  /** The name dm_build_dm_name makes. */
  function Build(vg: string, lv: string, layer: string): string {
    QuoteHyphens(vg) + "-" + QuoteHyphens(lv) + LayerPart(layer)
  }

  function LayerPart(layer: string): string {
    if layer == [] then [] else (if layer[0] != '_' then "-" else "") + QuoteHyphens(layer)
  }

  datatype Split = Split(component: string, rest: string)

  /** What _unquote finds: the component up to the first hyphen that neither stands
      before another one nor ends the string, and what follows that hyphen. */
  function Unquoted(s: string): Split {
    if s == [] then Split([], [])
    else if |s| > 1 && s[0] == '-' then
      if s[1] == '-' then
        var t := Unquoted(s[2..]);
        Split(['-'] + t.component, t.rest)
      else
        Split([], s[1..])
    else
      var t := Unquoted(s[1..]);
      Split([s[0]] + t.component, t.rest)
  }

  datatype Parts = Parts(vg: string, lv: string, layer: string)

  function SplitName(name: string): Parts {
    var a := Unquoted(name);
    var b := Unquoted(a.rest);
    Parts(a.component, b.component, Unquoted(b.rest).component)
  }

  // ---- the codec ----

  /** A quoted component is consumed whole; the scan goes on behind it. */
  lemma {:induction false} UnquotedBehind(s: string, rest: string)
    ensures Unquoted(QuoteHyphens(s) + rest).component == s + Unquoted(rest).component
    ensures Unquoted(QuoteHyphens(s) + rest).rest == Unquoted(rest).rest
  {
    if s == [] {
      assert QuoteHyphens(s) + rest == rest;
    } else {
      UnquotedBehind(s[1..], rest);
      UnquotedCons(s[0], s[1..], rest);
      assert s == [s[0]] + s[1..];
    }
  }

  lemma UnquotedCons(c: char, s: string, rest: string)
    requires Unquoted(QuoteHyphens(s) + rest).component == s + Unquoted(rest).component
    ensures Unquoted(QuoteHyphens([c] + s) + rest).component == [c] + s + Unquoted(rest).component
    ensures Unquoted(QuoteHyphens([c] + s) + rest).rest == Unquoted(QuoteHyphens(s) + rest).rest
  {
    hide Unquoted;
    UnquotedChar(c, QuoteHyphens(s) + rest);
    var head := if c == '-' then ['-', '-'] else [c];
    assert QuoteHyphens([c] + s) == head + QuoteHyphens(s) by {
      assert ([c] + s)[1..] == s;
    }
    hide Quote;
    assert head + QuoteHyphens(s) + rest == head + (QuoteHyphens(s) + rest);
    assert [c] + (s + Unquoted(rest).component) == [c] + s + Unquoted(rest).component;
  }

  lemma UnquotedChar(c: char, tail: string)
    ensures var t := Unquoted(tail);
            Unquoted((if c == '-' then ['-', '-'] else [c]) + tail) == Split([c] + t.component, t.rest)
  {
    if c == '-' {
      assert (['-', '-'] + tail)[2..] == tail;
    } else {
      assert ([c] + tail)[1..] == tail;
    }
  }

  /** A single hyphen before other text ends the component. */
  lemma UnquotedAtSeparator(rest: string)
    requires rest != [] && rest[0] != '-'
    ensures Unquoted("-" + rest) == Split([], rest)
  {
    assert ("-" + rest)[1..] == rest;
  }

  /** A hyphen that is doubled or last goes into the component. */
  lemma UnquotedKeepsHyphen(rest: string)
    requires rest == [] || rest[0] == '-'
    ensures Unquoted("-" + rest).component != []
  {
    if rest == [] {
      assert "-" + rest == "-";
      assert "-"[1..] == [];
    }
  }

  lemma {:induction false} QuotedHead(s: string)
    ensures s == [] <==> QuoteHyphens(s) == []
    ensures s != [] ==> QuoteHyphens(s)[0] == s[0]
  {
    if s != [] {
      var _ := QuoteHyphens(s[1..]);
    }
  }

  /** When splitting a built name gives its parts back. */
  predicate Separable(lv: string, layer: string) {
    && lv != [] && lv[0] != '-'
    && (layer == [] || (layer[0] != '-' && layer[0] != '_'))
  }

  lemma SplitLayer(layer: string)
    ensures Unquoted(QuoteHyphens(layer)) == Split(layer, [])
  {
    UnquotedBehind(layer, []);
    assert QuoteHyphens(layer) + [] == QuoteHyphens(layer);
    assert layer + [] == layer;
  }

  lemma SplitLv(lv: string, layer: string)
    ensures var t := Unquoted(QuoteHyphens(lv) + LayerPart(layer));
            (t.component == lv && Unquoted(t.rest).component == layer)
            <==> (layer == [] || (layer[0] != '-' && layer[0] != '_'))
  {
    UnquotedBehind(lv, LayerPart(layer));
    QuotedHead(layer);
    SplitLayer(layer);
    if layer == [] {
      assert lv + [] == lv;
    } else if layer[0] == '_' {
      // the layer is glued to the name: it ends up in the component
      assert "" + QuoteHyphens(layer) == QuoteHyphens(layer);
      assert |lv + layer| > |lv|;
    } else if layer[0] == '-' {
      UnquotedKeepsHyphen(QuoteHyphens(layer));
    } else {
      UnquotedAtSeparator(QuoteHyphens(layer));
      assert lv + [] == lv;
    }
  }

  /** Splitting undoes building exactly for separable names. */
  lemma SplitUndoesBuild(vg: string, lv: string, layer: string)
    ensures SplitName(Build(vg, lv, layer)) == Parts(vg, lv, layer) <==> Separable(lv, layer)
  {
    var tail := QuoteHyphens(lv) + LayerPart(layer);
    assert Build(vg, lv, layer) == QuoteHyphens(vg) + ("-" + tail);
    UnquotedBehind(vg, "-" + tail);
    SplitLv(lv, layer);
    QuotedHead(lv);
    QuotedHead(layer);
    if tail != [] && tail[0] != '-' {
      UnquotedAtSeparator(tail);
      assert vg + [] == vg;
      if lv == [] {
        // only a glued layer gets here, and it is taken for the name
        assert layer[0] == '_';
        UnquotedBehind(lv, LayerPart(layer));
        SplitLayer(layer);
        assert LayerPart(layer) == QuoteHyphens(layer);
        assert lv + layer == layer;
      }
    } else {
      UnquotedKeepsHyphen(tail);
      assert |SplitName(Build(vg, lv, layer)).vg| > |vg|;
    }
  }

  // ---- the code ----

  /** dm_build_dm_name. The room it asks for is exact, except that a layer glued
      with '_' leaves one byte unused. */
  method BuildDmName(vg: string, lv: string, layer: string) returns (buf: array<char>)
    requires IsText(vg) && IsText(lv) && IsText(layer)
    ensures fresh(buf)
    ensures Holds(buf, 0, Build(vg, lv, layer))
    ensures buf.Length == |Build(vg, lv, layer)| + 1 + (if layer != [] && layer[0] == '_' then 1 else 0)
  {
    var len, hyphens := 1, 1;
    var n, c := CountChars(vg, '-', NUL);
    len, hyphens := len + n, hyphens + c;
    n, c := CountChars(lv, '-', NUL);
    len, hyphens := len + n, hyphens + c;
    if layer != [] {
      n, c := CountChars(layer, '-', NUL);
      len, hyphens := len + n, hyphens + c + 1;
    }
    len := len + hyphens;
    NameLengths(vg, lv, layer);

    buf := new char[len](_ => NUL);
    var out := AppendQuoted(buf, 0, [], vg);
    assert [] + QuoteHyphens(vg) == QuoteHyphens(vg);
    out := AppendHyphen(buf, out, QuoteHyphens(vg));
    out := AppendQuoted(buf, out, QuoteHyphens(vg) + "-", lv);
    out := AppendLayer(buf, out, QuoteHyphens(vg) + "-" + QuoteHyphens(lv), layer);
    buf[out] := NUL;
  }

  method AppendLayer(buf: array<char>, at: nat, ghost head: string, layer: string) returns (end: nat)
    requires at == |head| && at + |LayerPart(layer)| <= buf.Length
    requires forall k :: 0 <= k < at ==> buf[k] == head[k]
    modifies buf
    ensures end == |head + LayerPart(layer)| <= buf.Length
    ensures forall k :: 0 <= k < end ==> buf[k] == (head + LayerPart(layer))[k]
  {
    hide Quote;
    end := at;
    if layer == [] {
      assert head + LayerPart(layer) == head;
    } else if layer[0] != '_' {
      end := AppendHyphen(buf, end, head);
      end := AppendQuoted(buf, end, head + "-", layer);
      assert head + LayerPart(layer) == head + "-" + QuoteHyphens(layer);
    } else {
      end := AppendQuoted(buf, end, head, layer);
      assert LayerPart(layer) == QuoteHyphens(layer);
    }
  }

  method AppendQuoted(buf: array<char>, at: nat, ghost head: string, src: string) returns (end: nat)
    requires at == |head| && at + |QuoteHyphens(src)| <= buf.Length
    requires forall k :: 0 <= k < at ==> buf[k] == head[k]
    modifies buf
    ensures end == |head + QuoteHyphens(src)| <= buf.Length
    ensures forall k :: 0 <= k < end ==> buf[k] == (head + QuoteHyphens(src))[k]
  {
    end := QuoteCharacters(buf, at, src, '-', '-', false);
    forall k | at <= k < end
      ensures buf[k] == (head + QuoteHyphens(src))[k]
    {
      assert buf[at..end][k - at] == buf[k];
    }
  }

  method AppendHyphen(buf: array<char>, at: nat, ghost head: string) returns (end: nat)
    requires at == |head| < buf.Length
    requires forall k :: 0 <= k < at ==> buf[k] == head[k]
    modifies buf
    ensures end == |head + "-"|
    ensures forall k :: 0 <= k < end ==> buf[k] == (head + "-")[k]
  {
    buf[at] := '-';
    end := at + 1;
  }

  lemma NameLengths(vg: string, lv: string, layer: string)
    requires IsText(vg) && IsText(lv) && IsText(layer)
    ensures IsText(Build(vg, lv, layer))
    ensures |QuoteHyphens(vg)| == |vg| + Occurrences(vg, '-', NUL)
    ensures |QuoteHyphens(lv)| == |lv| + Occurrences(lv, '-', NUL)
    ensures |QuoteHyphens(layer)| == |layer| + Occurrences(layer, '-', NUL)
  {
    forall s | s in {vg, lv, layer}
      ensures IsText(QuoteHyphens(s)) && |QuoteHyphens(s)| == |s| + Occurrences(s, '-', NUL)
    {
      QuoteKeepsText(s, '-', '-', false);
      QuoteLength(s, '-', '-', false);
      SameOccurrences(s);
    }
  }

  lemma {:induction false} SameOccurrences(s: string)
    requires IsText(s)
    ensures Occurrences(s, '-', '-') == Occurrences(s, '-', NUL)
  {
    if s != [] {
      assert s[0] in s;
      SameOccurrences(s[1..]);
    }
  }

  lemma {:induction false} UnquotedKeepsText(s: string)
    requires IsText(s)
    ensures IsText(Unquoted(s).component) && IsText(Unquoted(s).rest)
    ensures |Unquoted(s).component| + |Unquoted(s).rest| <= |s|
    ensures Unquoted(s).rest == s[|s| - |Unquoted(s).rest|..]
    ensures |Unquoted(s).component| == |s| ==> Unquoted(s).rest == []
    ensures Unquoted(s).rest != [] ==> |Unquoted(s).component| + |Unquoted(s).rest| < |s|
  {
    if s == [] {
    } else if |s| > 1 && s[0] == '-' {
      if s[1] == '-' {
        UnquotedKeepsText(s[2..]);
      }
    } else {
      UnquotedKeepsText(s[1..]);
    }
  }

  /** One step of the scan of _unquote. */
  lemma UnquotedStep(text: string, k: nat, goal: Split, n: nat)
    requires k < |text| && n <= |goal.component|
    requires Unquoted(text[k..]) == Split(goal.component[n..], goal.rest)
    ensures if k + 1 < |text| && text[k] == '-' then
              if text[k + 1] == '-' then
                && n < |goal.component| && goal.component[n] == '-'
                && Unquoted(text[k + 2..]) == Split(goal.component[n + 1..], goal.rest)
              else
                n == |goal.component| && goal.rest == text[k + 1..]
            else
              && n < |goal.component| && goal.component[n] == text[k]
              && Unquoted(text[k + 1..]) == Split(goal.component[n + 1..], goal.rest)
  {
    assert text[k..][1..] == text[k + 1..];
    assert k + 1 < |text| ==> text[k..][2..] == text[k + 2..] && text[k..][1] == text[k + 1];
    assert n < |goal.component| ==>
        goal.component[n] == goal.component[n..][0] && goal.component[n + 1..] == goal.component[n..][1..];
  }

  /** The loop of _unquote has read k characters of the text and written n: the
      component so far stands in front, the unread text is intact, and nothing
      outside the text has changed. */
  ghost predicate Compacting(b: seq<char>, was: seq<char>, at: nat, text: string, k: nat, n: nat) {
    var goal := Unquoted(text);
    && n <= k <= |text| && at + |text| < |b| == |was|
    && n <= |goal.component|
    && Unquoted(text[k..]) == Split(goal.component[n..], goal.rest)
    && (forall i :: at <= i < at + n ==> b[i] == goal.component[i - at])
    && (forall i :: at + k <= i < at + |text| ==> b[i] == text[i - at])
    && (forall i :: 0 <= i < at || at + |text| <= i < |b| ==> b[i] == was[i])
  }

  lemma CompactStep(b: seq<char>, was: seq<char>, at: nat, text: string, k: nat, n: nat)
    requires Compacting(b, was, at, text, k, n) && k < |text|
    ensures !AtSeparator(text, k) ==>
            var j := if k + 1 < |text| && text[k] == '-' then k + 1 else k;
            Compacting(b[at + n := text[j]], was, at, text, j + 1, n + 1)
  {
    UnquotedStep(text, k, Unquoted(text), n);
  }

  /** Where the loop of _unquote stops: at a separating hyphen. */
  predicate AtSeparator(text: string, k: nat) {
    k + 1 < |text| && text[k] == '-' && text[k + 1] != '-'
  }

  method CompactOne(buf: array<char>, at: nat, ghost text: string, ghost was: seq<char>, k: nat, n: nat)
    returns (next: nat)
    requires IsText(text) && Compacting(buf[..], was, at, text, k, n) && k < |text| && was[at + |text|] == NUL
    modifies buf
    ensures AtSeparator(text, k) ==> next == k && buf[..] == old(buf[..])
    ensures !AtSeparator(text, k) ==> next > k && Compacting(buf[..], was, at, text, next, n + 1)
  {
    hide Unquoted;
    ghost var b := buf[..];
    assert b[at + k] == text[k] && (k + 1 < |text| ==> b[at + k + 1] == text[k + 1] && text[k + 1] in text);
    CompactStep(b, was, at, text, k, n);
    next := k;
    if buf[at + next + 1] != NUL && buf[at + next] == '-' {
      if buf[at + next + 1] != '-' {
        return;
      }
      next := next + 1;
    }
    buf[at + n] := buf[at + next];
    assert buf[..] == b[at + n := text[next]];
    next := next + 1;
  }

  /** The loop of _unquote: the component is compacted in front of the read index
      at + k, which stops at the separator or at the end. */
  method CompactComponent(buf: array<char>, at: nat, ghost text: string) returns (k: nat, n: nat)
    requires Holds(buf, at, text)
    modifies buf
    ensures Compacting(buf[..], old(buf[..]), at, text, k, n)
    ensures k < |text| ==> AtSeparator(text, k)
  {
    hide Unquoted;
    k, n := 0, 0;
    assert text[0..] == text && Unquoted(text).component[0..] == Unquoted(text).component;
    while buf[at + k] != NUL
      invariant Compacting(buf[..], old(buf[..]), at, text, k, n)
      decreases |text| - k
    {
      var next := CompactOne(buf, at, text, old(buf[..]), k, n);
      if next == k {
        return;
      }
      k, n := next, n + 1;
    }
  }

  lemma CompactDone(b: seq<char>, was: seq<char>, at: nat, text: string, k: nat, n: nat)
    requires Compacting(b, was, at, text, k, n)
    requires k < |text| ==> AtSeparator(text, k)
    ensures n == |Unquoted(text).component|
    ensures Unquoted(text).rest == if k < |text| then text[k + 1..] else []
    ensures b[at + |text|] == was[at + |text|]
    ensures k < |text| ==> b[at + k] == '-'
    ensures forall i :: at + k < i < at + |text| ==> b[i] == Unquoted(text).rest[i - at - k - 1]
  {
    if k < |text| {
      UnquotedStep(text, k, Unquoted(text), n);
    } else {
      assert text[k..] == [];
    }
  }

  /** _unquote, in the buffer that holds the name from index at on. The component
      replaces its quoted form, the rest stays where it is, and next is where the
      rest starts. */
  method UnquoteComponent(buf: array<char>, at: nat, ghost text: string) returns (next: nat)
    requires Holds(buf, at, text)
    modifies buf
    ensures next == at + |text| - |Unquoted(text).rest|
    ensures Holds(buf, at, Unquoted(text).component)
    ensures Holds(buf, next, Unquoted(text).rest)
    ensures at + |Unquoted(text).component| <= next
    ensures Unquoted(text).rest != [] ==> at + |Unquoted(text).component| < next
    ensures forall k :: 0 <= k < at || at + |text| < k < buf.Length ==> buf[k] == old(buf[k])
  {
    hide Unquoted;
    UnquotedKeepsText(text);
    var k, n := CompactComponent(buf, at, text);
    CompactDone(buf[..], old(buf[..]), at, text, k, n);
    ghost var b := buf[..];
    assert forall i :: 0 <= i < buf.Length ==> buf[i] == b[i];
    next := if buf[at + k] != NUL then at + k + 1 else at + k;
    buf[at + n] := NUL;
  }

  /** _unquote leaves a component that ends in front of the text alone. */
  method UnquoteBehind(buf: array<char>, at: nat, ghost text: string, ghost keptAt: nat, ghost kept: string)
    returns (next: nat)
    requires Holds(buf, at, text) && Holds(buf, keptAt, kept)
    requires keptAt + |kept| <= at && (text != [] ==> keptAt + |kept| < at)
    modifies buf
    ensures next == at + |text| - |Unquoted(text).rest|
    ensures Holds(buf, at, Unquoted(text).component)
    ensures Holds(buf, next, Unquoted(text).rest)
    ensures at + |Unquoted(text).component| <= next
    ensures Unquoted(text).rest != [] ==> at + |Unquoted(text).component| < next
    ensures Holds(buf, keptAt, kept)
    ensures forall k :: 0 <= k < at || at + |text| < k < buf.Length ==> buf[k] == old(buf[k])
  {
    hide Unquoted;
    next := UnquoteComponent(buf, at, text);
  }

  /** dm_split_lvm_name with the name already in the caller's buffer. */
  method SplitLvmName(buf: array<char>, ghost name: string) returns (lvAt: nat, layerAt: nat)
    requires Holds(buf, 0, name)
    modifies buf
    ensures Holds(buf, 0, SplitName(name).vg)
    ensures Holds(buf, lvAt, SplitName(name).lv)
    ensures Holds(buf, layerAt, SplitName(name).layer)
  {
    hide Unquoted;
    ghost var a := Unquoted(name);
    lvAt := UnquoteComponent(buf, 0, name);
    layerAt := UnquoteBehind(buf, lvAt, a.rest, 0, a.component);
    ghost var b := Unquoted(a.rest);
    ghost var vgEnd := |a.component|;
    assert b.rest != [] ==> vgEnd < layerAt;
    UnquoteLast(buf, layerAt, b.rest, lvAt, b.component, a.component);
  }

  method UnquoteLast(buf: array<char>, at: nat, ghost text: string, ghost lvAt: nat, ghost lv: string, ghost vg: string)
    requires Holds(buf, at, text) && Holds(buf, lvAt, lv) && Holds(buf, 0, vg)
    requires lvAt + |lv| <= at && (text != [] ==> lvAt + |lv| < at)
    requires |vg| <= at && (text != [] ==> |vg| < at)
    modifies buf
    ensures Holds(buf, at, Unquoted(text).component) && Holds(buf, lvAt, lv) && Holds(buf, 0, vg)
  {
    hide Unquoted;
    var _ := UnquoteBehind(buf, at, text, lvAt, lv);
    assert buf[|vg|] == NUL by {
      if |vg| == at {
        assert text == [];
      }
    }
  }
}
