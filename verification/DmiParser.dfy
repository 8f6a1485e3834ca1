/** DmiParser._parse of
    core/modules/hardware-stats/data/opt/openslx/hardware-stats/dmiparser.py: a
    three-state line parser with one line of lookahead and delayed flushing. */
module DmiParser {
  import opened Bits

  // ----- Lines and results -----

  datatype Handle = Handle(id: string, kind: string, bytes: string)

  /** A line as the parser tells them apart: empty, a handle line (or one the
      pattern rejects), or text after a number of tabs. */
  datatype Line = Blank | HandleLine(handle: Handle) | BadHandle | Text(indent: nat, body: string)

  datatype Prop = Prop(key: string, values: seq<string>)

  /** `props` is a dictionary in insertion order. */
  datatype Section = Section(handle: Handle, name: string, props: seq<Prop>)

  function Indent(l: Line): nat {
    if l.Text? then l.indent else 0
  }

  // ----- Python's strip and split(':', 1) -----

  predicate IsSpace(c: char) {
    c in " \t\n\r" || c == '\U{000B}' || c == '\U{000C}' || '\U{001C}' <= c <= '\U{001F}' || c == '\U{0085}' || c == '\U{00A0}'
  }

  function TrimLeft(s: string): string {
    if s != "" && IsSpace(s[0]) then TrimLeft(s[1..]) else s
  }

  function TrimRight(s: string): string {
    if s != "" && IsSpace(s[|s| - 1]) then TrimRight(s[..|s| - 1]) else s
  }

  function Strip(s: string): string {
    TrimRight(TrimLeft(s))
  }

  /** Index of the first colon, or the length. */
  function Colon(s: string): (k: nat)
    ensures k <= |s|
  {
    if s == "" || s[0] == ':' then 0 else 1 + Colon(s[1..])
  }

  // ----- The parser's variables -----

  datatype Mode = Start | GetSect | GetProp | GetPropItem

  datatype State = State(mode: Mode, handle: Option<Handle>, section: Option<Section>, prop: Option<seq<string>>,
                         key: string, sections: seq<Section>)

  const INITIAL := State(Start, None, None, None, "", [])

  /** Section.append: replace the value of a known key, else add it at the end. */
  function Put(props: seq<Prop>, key: string, values: seq<string>): seq<Prop> {
    if props == [] then [Prop(key, values)]
    else if props[0].key == key then [Prop(key, values)] + props[1..]
    else [props[0]] + Put(props[1..], key, values)
  }

  function AddProp(section: Section, key: string, values: seq<string>): Section {
    section.(props := Put(section.props, key, values))
  }

  /** Close the current section, with a pending property if there is one. */
  function Flush(st: State): State {
    if st.section.None? then st
    else
      var section := if st.prop.Some? then AddProp(st.section.value, st.key, st.prop.value) else st.section.value;
      st.(prop := None, sections := st.sections + [section], section := None)
  }

  function PropStep(st: State, indent: nat, body: string, next: Option<nat>): Option<State> {
    var c := Colon(body);
    if c == |body| || next.None? || st.section.None? then None
    else Some(SetProp(st, indent, Strip(body[..c]), Strip(body[c + 1..]), next.value))
  }

  /** A property line read as key and value. */
  function SetProp(st: State, indent: nat, key: string, value: string, next: nat): State
    requires st.section.Some?
  {
    var values := if value == "" then [] else [value];
    var lv := indent - next;
    var st1 := st.(key := key, prop := Some(values));
    if lv == -1 then st1.(mode := GetPropItem)
    else
      var st2 := if value != "" && lv == 0
                 then st1.(section := Some(AddProp(st.section.value, key, values)), prop := None) else st1;
      if next == 0 then st2.(mode := GetSect) else st2
  }

  function ItemStep(st: State, indent: nat, body: string, next: Option<nat>): Option<State> {
    if next.None? || st.section.None? || st.prop.None? then None
    else
      var values := st.prop.value + [Strip(body)];
      var lv := indent - next.value;
      if lv == 0 then Some(st.(prop := Some(values)))
      else Some(st.(section := Some(AddProp(st.section.value, st.key, values)), prop := None,
                    mode := if lv > 1 then GetSect else GetProp))
  }

  function Tabs(n: nat): string {
    seq(n, _ => '\t')
  }

  /** One pass through the loop; `next` is the indent of the following line, None
      on the last one. None stands for an exception. */
  function Step(st: State, l: Line, next: Option<nat>): Option<State> {
    var st1 := if next.None? || st.mode == GetSect then Flush(st) else st;
    match l
    case Blank => Some(st1)
    case HandleLine(h) => Some(st1.(mode := GetSect, handle := Some(h)))
    case BadHandle => None
    case Text(indent, body) =>
      match st1.mode
      case Start => Some(st1)
      case GetSect =>
        if st1.handle.None? then None
        else Some(st1.(section := Some(Section(st1.handle.value, Tabs(indent) + body, [])), mode := GetProp))
      case GetProp => PropStep(st1, indent, body, next)
      case GetPropItem => ItemStep(st1, indent, body, next)
  }

  function NextIndent(lines: seq<Line>): Option<nat> {
    if |lines| > 1 then Some(Indent(lines[1])) else None
  }

  function Run(st: State, lines: seq<Line>): Option<State>
    decreases |lines|
  {
    if lines == [] then Some(st)
    else match Step(st, lines[0], NextIndent(lines))
      case None => None
      case Some(st1) => Run(st1, lines[1..])
  }

  /** What the parser's _sections holds at the end, or an exception. */
  function Parsed(lines: seq<Line>): Option<seq<Section>> {
    match Run(INITIAL, lines)
    case None => None
    case Some(st) => Some(st.sections)
  }

  /** The loop of _parse on its local variables. */
  method Parse(lines: seq<Line>) returns (result: Option<seq<Section>>)
    ensures result == Parsed(lines)
  {
    var mode, key := Start, "";
    var handle: Option<Handle>, section: Option<Section>, prop: Option<seq<string>> := None, None, None;
    var sections: seq<Section> := [];
    for i := 0 to |lines|
      invariant Run(State(mode, handle, section, prop, key, sections), lines[i..]) == Run(INITIAL, lines)
    {
      ghost var st := State(mode, handle, section, prop, key, sections);
      assert lines[i..][1..] == lines[i + 1..];
      var next := if i + 1 < |lines| then Some(Indent(lines[i + 1])) else None;
      assert next == NextIndent(lines[i..]);
      if next.None? || mode == GetSect {
        if section.Some? {
          if prop.Some? {
            section := Some(AddProp(section.value, key, prop.value));
            prop := None;
          }
          sections := sections + [section.value];
          section := None;
        }
      }
      ghost var st1 := State(mode, handle, section, prop, key, sections);
      assert st1 == if next.None? || st.mode == GetSect then Flush(st) else st;
      match lines[i] {
        case Blank =>
        case HandleLine(h) =>
          mode, handle := GetSect, Some(h);
        case BadHandle =>
          return None;
        case Text(indent, body) =>
          if mode == GetSect {
            if handle.None? {
              return None;
            }
            section := Some(Section(handle.value, Tabs(indent) + body, []));
            mode := GetProp;
          } else if mode == GetProp || mode == GetPropItem {
            var after := if mode == GetProp then PropStep(State(mode, handle, section, prop, key, sections), indent, body, next)
                         else ItemStep(State(mode, handle, section, prop, key, sections), indent, body, next);
            if after.None? {
              return None;
            }
            mode, section, prop, key := after.value.mode, after.value.section, after.value.prop, after.value.key;
          }
      }
      assert Step(st, lines[i], next) == Some(State(mode, handle, section, prop, key, sections));
    }
    return Some(sections);
  }

  // ----- Documents and how they are printed -----

  /** A property with a value on its own line, items below it, both, or neither. */
  datatype DocProp = DocProp(key: string, value: string, items: seq<string>)
  datatype DocSection = DocSection(name: string, props: seq<DocProp>)
  datatype Block = Block(handle: Handle, sections: seq<DocSection>)

  function PropLine(p: DocProp): Line {
    Text(1, if p.value == "" then p.key + ":" else p.key + ": " + p.value)
  }

  // Each of these prints its part in front of the lines that follow it.

  function ItemLines(items: seq<string>, rest: seq<Line>): seq<Line>
    decreases |items|
  {
    if items == [] then rest else [Text(2, items[0])] + ItemLines(items[1..], rest)
  }

  function PropsLines(props: seq<DocProp>, rest: seq<Line>): seq<Line>
    decreases |props|
  {
    if props == [] then rest else [PropLine(props[0])] + ItemLines(props[0].items, PropsLines(props[1..], rest))
  }

  function SectionsLines(ss: seq<DocSection>, rest: seq<Line>): seq<Line>
    decreases |ss|
  {
    if ss == [] then rest else [Text(0, ss[0].name)] + PropsLines(ss[0].props, SectionsLines(ss[1..], rest))
  }

  function BlocksLines(blocks: seq<Block>): seq<Line>
    decreases |blocks|
  {
    if blocks == [] then []
    else [HandleLine(blocks[0].handle)] + SectionsLines(blocks[0].sections, [Blank] + BlocksLines(blocks[1..]))
  }

  predicate Stripped(s: string) {
    s != "" ==> !IsSpace(s[0]) && !IsSpace(s[|s| - 1])
  }

  ghost predicate GoodProp(p: DocProp) {
    && Stripped(p.key) && ':' !in p.key && Stripped(p.value)
    && forall i :: 0 <= i < |p.items| ==> Stripped(p.items[i])
  }

  ghost predicate GoodProps(props: seq<DocProp>) {
    && (forall i :: 0 <= i < |props| ==> GoodProp(props[i]))
    && forall i, j :: 0 <= i < j < |props| ==> props[i].key != props[j].key
  }

  /** Only the last section of a handle may have no properties. */
  ghost predicate GoodSections(ss: seq<DocSection>) {
    && (forall i :: 0 <= i < |ss| ==> GoodProps(ss[i].props))
    && forall i :: 0 <= i < |ss| - 1 ==> ss[i].props != []
  }

  ghost predicate GoodDocument(blocks: seq<Block>) {
    forall i :: 0 <= i < |blocks| ==> GoodSections(blocks[i].sections)
  }

  function ValuesOf(p: DocProp): seq<string> {
    (if p.value == "" then [] else [p.value]) + p.items
  }

  function PropsOf(props: seq<DocProp>): seq<Prop> {
    if props == [] then [] else [Prop(props[0].key, ValuesOf(props[0]))] + PropsOf(props[1..])
  }

  function SectionsOf(h: Handle, ss: seq<DocSection>): seq<Section> {
    if ss == [] then [] else [Section(h, ss[0].name, PropsOf(ss[0].props))] + SectionsOf(h, ss[1..])
  }

  function DocumentOf(blocks: seq<Block>): seq<Section> {
    if blocks == [] then [] else SectionsOf(blocks[0].handle, blocks[0].sections) + DocumentOf(blocks[1..])
  }

  /** Neither a value nor items. */
  predicate Bare(p: DocProp) {
    p.value == "" && p.items == []
  }

  /** A bare property is forgotten when the next one is read; the last one is not. */
  function Surviving(props: seq<DocProp>): seq<DocProp> {
    if |props| <= 1 then props
    else (if Bare(props[0]) then [] else [props[0]]) + Surviving(props[1..])
  }

  function ReadSections(h: Handle, ss: seq<DocSection>): seq<Section> {
    if ss == [] then [] else [Section(h, ss[0].name, PropsOf(Surviving(ss[0].props)))] + ReadSections(h, ss[1..])
  }

  /** What is read back: the document without the forgotten properties. */
  function ReadDocument(blocks: seq<Block>): seq<Section> {
    if blocks == [] then [] else ReadSections(blocks[0].handle, blocks[0].sections) + ReadDocument(blocks[1..])
  }

  // ----- Reading a printed document back -----

  lemma StripStripped(s: string)
    requires Stripped(s)
    ensures Strip(s) == s && Strip(" " + s) == s
  {
    assert (" " + s)[1..] == s;
    assert TrimLeft(" " + s) == TrimLeft(s);
  }

  lemma {:induction false} ColonAfter(a: string, b: string)
    requires ':' !in a
    ensures Colon(a + ":" + b) == |a|
    decreases |a|
  {
    var s := a + ":" + b;
    if a != "" {
      assert s[1..] == a[1..] + ":" + b;
      ColonAfter(a[1..], b);
    }
  }

  lemma CutAtColon(a: string, b: string)
    ensures var s := a + ":" + b; |a| < |s| && s[..|a|] == a && s[|a| + 1..] == b
  {
  }

  lemma PropLineText(p: DocProp)
    ensures PropLine(p).body == p.key + ":" + if p.value == "" then "" else " " + p.value
  {
    if p.value == "" {
      assert p.key + ":" + "" == p.key + ":";
    } else {
      assert p.key + ":" + (" " + p.value) == p.key + ": " + p.value;
    }
  }

  lemma PropLineSplits(p: DocProp)
    requires GoodProp(p)
    ensures var body := PropLine(p).body; var c := Colon(body);
            c < |body| && Strip(body[..c]) == p.key && Strip(body[c + 1..]) == p.value
  {
    var rest := if p.value == "" then "" else " " + p.value;
    PropLineText(p);
    ColonAfter(p.key, rest);
    CutAtColon(p.key, rest);
    StripStripped(p.key);
    StripStripped(p.value);
  }

  /** Sections finished so far, the open one included. */
  function Out(st: State): seq<Section> {
    Flush(st).sections
  }

  lemma RunStep(st: State, l: Line, rest: seq<Line>)
    requires rest != []
    ensures Run(st, [l] + rest) == match Step(st, l, Some(Indent(rest[0]))) case None => None case Some(st1) => Run(st1, rest)
  {
    assert ([l] + rest)[1..] == rest;
  }

  /** The property under `key` is complete and the next line has indent `next`. */
  function Completed(st: State, values: seq<string>, next: nat): State
    requires st.section.Some?
  {
    st.(section := Some(AddProp(st.section.value, st.key, values)), prop := None, mode := if next == 0 then GetSect else GetProp)
  }

  lemma ItemLineStep(st: State, item: string, next: nat)
    requires st.mode == GetPropItem && st.section.Some? && st.prop.Some? && Stripped(item) && next <= 2
    ensures var values := st.prop.value + [item];
            Step(st, Text(2, item), Some(next)) ==
            Some(if next == 2 then st.(prop := Some(values)) else Completed(st, values, next))
  {
    StripStripped(item);
  }

  /** Items are collected until a line with less indent. */
  lemma {:induction false} ItemsRun(st: State, items: seq<string>, rest: seq<Line>)
    requires st.mode == GetPropItem && st.section.Some? && st.prop.Some? && items != []
    requires forall i :: 0 <= i < |items| ==> Stripped(items[i])
    requires rest != [] && Indent(rest[0]) < 2
    ensures Run(st, ItemLines(items, rest)) == Run(Completed(st, st.prop.value + items, Indent(rest[0])), rest)
    decreases |items|
  {
    var l, more := Text(2, items[0]), ItemLines(items[1..], rest);
    RunStep(st, l, more);
    if |items| == 1 {
      assert more == rest;
      ItemLineStep(st, items[0], Indent(rest[0]));
      assert [items[0]] == items;
    } else {
      assert more[0] == Text(2, items[1]);
      ItemLineStep(st, items[0], 2);
      var st1 := st.(prop := Some(st.prop.value + [items[0]]));
      ItemsRun(st1, items[1..], rest);
      assert (st.prop.value + [items[0]]) + items[1..] == st.prop.value + items;
    }
  }

  // ----- A property, a section, a block -----

  /** Inside a section with nothing pending. */
  ghost predicate InSection(st: State) {
    st.mode == GetProp && st.section.Some? && st.prop.None?
  }

  /** Inside a section; a forgotten property may be pending. */
  ghost predicate AtProps(st: State) {
    st.mode == GetProp && st.section.Some?
  }

  lemma PropLineStep(st: State, p: DocProp, next: nat)
    requires AtProps(st) && GoodProp(p) && !Bare(p)
    requires next == if p.items == [] then 1 else 2
    ensures var st1 := st.(key := p.key, prop := Some(if p.value == "" then [] else [p.value]));
            Step(st, PropLine(p), Some(next)) ==
            Some(if next == 2 then st1.(mode := GetPropItem) else Completed(st1, [p.value], 1))
  {
    PropLineSet(st, p, next);
  }

  lemma PropLineSet(st: State, p: DocProp, next: nat)
    requires AtProps(st) && GoodProp(p)
    ensures Step(st, PropLine(p), Some(next)) == Some(SetProp(st, 1, p.key, p.value, next))
  {
    PropLineSplits(p);
    StepAtProps(st, 1, PropLine(p).body, next);
    PropStepSets(st, 1, PropLine(p).body, next);
  }

  lemma StepAtProps(st: State, indent: nat, body: string, next: nat)
    requires AtProps(st)
    ensures Step(st, Text(indent, body), Some(next)) == PropStep(st, indent, body, Some(next))
  {
  }

  lemma PropStepSets(st: State, indent: nat, body: string, next: nat)
    requires AtProps(st) && Colon(body) < |body|
    ensures var c := Colon(body);
            PropStep(st, indent, body, Some(next)) == Some(SetProp(st, indent, Strip(body[..c]), Strip(body[c + 1..]), next))
  {
  }

  /** A last property without items stays pending. */
  lemma LastPropLineStep(st: State, p: DocProp)
    requires AtProps(st) && GoodProp(p) && p.items == []
    ensures Step(st, PropLine(p), Some(0)) == Some(st.(key := p.key, prop := Some(ValuesOf(p)), mode := GetSect))
  {
    PropLineSet(st, p, 0);
    ValuesWithoutItems(p);
    SetLastProp(st, p.key, p.value);
  }

  lemma ValuesWithoutItems(p: DocProp)
    requires p.items == []
    ensures ValuesOf(p) == if p.value == "" then [] else [p.value]
  {
  }

  lemma SetLastProp(st: State, key: string, value: string)
    requires st.section.Some?
    ensures SetProp(st, 1, key, value, 0) ==
            st.(key := key, prop := Some(if value == "" then [] else [value]), mode := GetSect)
  {
  }

  /** A bare property before another one stays pending, to be overwritten. */
  lemma BarePropLineStep(st: State, p: DocProp)
    requires AtProps(st) && GoodProp(p) && Bare(p)
    ensures Step(st, PropLine(p), Some(1)) == Some(st.(key := p.key, prop := Some([])))
  {
    PropLineSet(st, p, 1);
  }

  function WithProp(section: Section, p: DocProp): Section {
    AddProp(section, p.key, ValuesOf(p))
  }

  /** A printed property, followed by another one or by the end of its section. */
  lemma PropRun(st: State, p: DocProp, rest: seq<Line>) returns (st': State)
    requires AtProps(st) && GoodProp(p) && rest != [] && Indent(rest[0]) < 2
    ensures Run(st, [PropLine(p)] + ItemLines(p.items, rest)) == Run(st', rest)
    ensures st'.handle == st.handle && st'.sections == st.sections && st'.section.Some?
    ensures Indent(rest[0]) == 1 ==>
              AtProps(st') && st'.section == Some(if Bare(p) then st.section.value else WithProp(st.section.value, p))
    ensures Indent(rest[0]) == 0 ==> st'.mode == GetSect && Out(st') == st.sections + [WithProp(st.section.value, p)]
  {
    var more := ItemLines(p.items, rest);
    RunStep(st, PropLine(p), more);
    if p.items == [] {
      assert more == rest;
      if Indent(rest[0]) == 0 {
        LastPropLineStep(st, p);
        st' := st.(key := p.key, prop := Some(ValuesOf(p)), mode := GetSect);
      } else if Bare(p) {
        BarePropLineStep(st, p);
        st' := st.(key := p.key, prop := Some([]));
      } else {
        PropLineStep(st, p, 1);
        assert ValuesOf(p) == [p.value];
        st' := Completed(st.(key := p.key, prop := Some([p.value])), [p.value], 1);
      }
    } else {
      assert more[0] == Text(2, p.items[0]);
      PropLineStep(st, p, 2);
      var st1 := st.(key := p.key, prop := Some(if p.value == "" then [] else [p.value]), mode := GetPropItem);
      ItemsRun(st1, p.items, rest);
      st' := Completed(st1, ValuesOf(p), Indent(rest[0]));
    }
  }

  /** A section after its remaining properties. */
  function WithProps(section: Section, props: seq<DocProp>): Section
    decreases |props|
  {
    if props == [] then section else WithProps(WithProp(section, props[0]), props[1..])
  }

  ghost predicate AllGood(props: seq<DocProp>) {
    props == [] || (GoodProp(props[0]) && AllGood(props[1..]))
  }

  lemma {:induction false} GoodPropsAreGood(props: seq<DocProp>)
    requires forall i :: 0 <= i < |props| ==> GoodProp(props[i])
    ensures AllGood(props)
    decreases |props|
  {
    if props != [] {
      GoodPropsAreGood(props[1..]);
    }
  }

  /** The printed properties of a section up to the line that ends it. */
  lemma {:induction false} PropsRun(st: State, props: seq<DocProp>, rest: seq<Line>) returns (st': State)
    requires AtProps(st) && props != [] && AllGood(props)
    requires rest != [] && Indent(rest[0]) == 0
    ensures Run(st, PropsLines(props, rest)) == Run(st', rest)
    ensures st'.mode == GetSect && st'.handle == st.handle && st'.section.Some?
    ensures Out(st') == st.sections + [WithProps(st.section.value, Surviving(props))]
    decreases |props|
  {
    var st1 := PropRun(st, props[0], PropsLines(props[1..], rest));
    SurvivingCons(st.section.value, props);
    if |props| == 1 {
      st' := st1;
    } else {
      st' := PropsRun(st1, props[1..], rest);
    }
  }

  lemma SurvivingCons(section: Section, props: seq<DocProp>)
    requires props != []
    ensures WithProps(section, Surviving(props)) ==
            if |props| == 1 then WithProp(section, props[0])
            else WithProps(if Bare(props[0]) then section else WithProp(section, props[0]), Surviving(props[1..]))
  {
    var rest := Surviving(props[1..]);
    if |props| > 1 && !Bare(props[0]) {
      assert Surviving(props) == [props[0]] + rest && ([props[0]] + rest)[1..] == rest;
    } else if |props| > 1 {
      assert [] + rest == rest;
    }
  }

  lemma {:induction false} SurvivingAmong(props: seq<DocProp>)
    ensures forall q :: q in Surviving(props) ==> q in props
    ensures |Surviving(props)| <= |props|
    decreases |props|
  {
    if |props| > 1 {
      SurvivingAmong(props[1..]);
    }
  }

  ghost predicate DistinctKeys(props: seq<DocProp>) {
    forall i, j :: 0 <= i < j < |props| ==> props[i].key != props[j].key
  }

  lemma {:induction false} SurvivingDistinct(props: seq<DocProp>)
    requires DistinctKeys(props)
    ensures DistinctKeys(Surviving(props))
    decreases |props|
  {
    if |props| > 1 {
      SurvivingDistinct(props[1..]);
      SurvivingAmong(props[1..]);
      var rest := Surviving(props[1..]);
      assert forall q :: q in rest ==> q in props[1..];
      assert forall i :: 0 <= i < |rest| ==> rest[i] in rest;
      assert forall q :: q in props[1..] ==> q.key != props[0].key;
    }
  }

  /** All properties but the last have a value or items. */
  ghost predicate NoBare(props: seq<DocProp>) {
    forall i :: 0 <= i < |props| - 1 ==> !Bare(props[i])
  }

  lemma NoBareCons(props: seq<DocProp>)
    requires |props| > 1
    ensures NoBare(props) <==> !Bare(props[0]) && NoBare(props[1..])
  {
    assert forall i :: 0 <= i < |props| - 1 ==> props[1..][i] == props[i + 1];
    if !Bare(props[0]) && NoBare(props[1..]) {
      forall i | 0 <= i < |props| - 1 ensures !Bare(props[i]) {
        assert i > 0 ==> props[i] == props[1..][i - 1];
      }
    }
  }

  lemma {:induction false} SurvivingAll(props: seq<DocProp>)
    ensures NoBare(props) ==> Surviving(props) == props
    ensures !NoBare(props) ==> |Surviving(props)| < |props|
    decreases |props|
  {
    if |props| > 1 {
      NoBareCons(props);
      SurvivingAll(props[1..]);
      SurvivingAmong(props[1..]);
    }
  }

  lemma {:induction false} PropsOfCount(props: seq<DocProp>)
    ensures |PropsOf(props)| == |props|
    decreases |props|
  {
    if props != [] {
      PropsOfCount(props[1..]);
    }
  }

  lemma {:induction false} PutNew(props: seq<Prop>, key: string, values: seq<string>)
    requires forall i :: 0 <= i < |props| ==> props[i].key != key
    ensures Put(props, key, values) == props + [Prop(key, values)]
    decreases |props|
  {
    if props != [] {
      PutNew(props[1..], key, values);
      assert [props[0]] + (props[1..] + [Prop(key, values)]) == props + [Prop(key, values)];
    }
  }

  /** A key that is there keeps its place and gets the new values. */
  lemma {:induction false} PutReplaces(props: seq<Prop>, key: string, values: seq<string>, k: nat)
    requires k < |props| && props[k].key == key && forall i :: 0 <= i < k ==> props[i].key != key
    ensures Put(props, key, values) == props[k := Prop(key, values)]
    decreases k
  {
    if k > 0 {
      PutReplaces(props[1..], key, values, k - 1);
    }
  }

  lemma NewKeys(section: Section, props: seq<DocProp>)
    requires props != [] && forall i, j :: 0 <= i < j < |props| ==> props[i].key != props[j].key
    requires forall i, j :: 0 <= i < |section.props| && 0 <= j < |props| ==> section.props[i].key != props[j].key
    ensures var grown := section.props + [Prop(props[0].key, ValuesOf(props[0]))]; var rest := props[1..];
            forall i, j :: 0 <= i < |grown| && 0 <= j < |rest| ==> grown[i].key != rest[j].key
  {
  }

  /** With distinct keys the dictionary keeps every property in order. */
  lemma {:induction false} DistinctProps(section: Section, props: seq<DocProp>)
    requires forall i, j :: 0 <= i < j < |props| ==> props[i].key != props[j].key
    requires forall i, j :: 0 <= i < |section.props| && 0 <= j < |props| ==> section.props[i].key != props[j].key
    ensures WithProps(section, props) == section.(props := section.props + PropsOf(props))
    decreases |props|
  {
    if props == [] {
      assert section.props + [] == section.props;
    } else {
      var p := props[0];
      PutNew(section.props, p.key, ValuesOf(p));
      var s1 := WithProp(section, p);
      NewKeys(section, props);
      DistinctProps(s1, props[1..]);
      Assoc(section.props, [Prop(p.key, ValuesOf(p))], PropsOf(props[1..]));
    }
  }

  /** Between sections of a handle: the last one may still be open. */
  ghost predicate BetweenSections(st: State) {
    st.mode == GetSect && st.handle.Some? && (st.section.None? ==> st.prop.None?)
  }

  lemma NameStep(st: State, name: string, next: nat)
    requires BetweenSections(st)
    ensures Step(st, Text(0, name), Some(next)) ==
            Some(Flush(st).(section := Some(Section(st.handle.value, name, [])), mode := GetProp))
  {
    assert Tabs(0) + name == name;
  }

  function Opened(st: State, name: string): State
    requires st.handle.Some?
  {
    Flush(st).(section := Some(Section(st.handle.value, name, [])), mode := GetProp)
  }

  lemma OpenedIsInSection(st: State, name: string)
    requires BetweenSections(st)
    ensures InSection(Opened(st, name)) && Opened(st, name).handle == st.handle && Opened(st, name).sections == Out(st)
    ensures Out(Opened(st, name)) == Out(st) + [Section(st.handle.value, name, [])]
  {
  }

  /** One printed section; its properties may be missing only before the blank line. */
  lemma SectionRun(st: State, s: DocSection, more: seq<Line>) returns (st': State)
    requires BetweenSections(st) && GoodProps(s.props) && more != [] && Indent(more[0]) == 0
    ensures Run(st, [Text(0, s.name)] + PropsLines(s.props, more)) == Run(st', more)
    ensures Out(st') == Out(st) + [Section(st.handle.value, s.name, PropsOf(Surviving(s.props)))]
    ensures st'.handle == st.handle
    ensures if s.props == [] then InSection(st') else BetweenSections(st')
  {
    var lines, st1 := PropsLines(s.props, more), Opened(st, s.name);
    RunStep(st, Text(0, s.name), lines);
    NameStep(st, s.name, Indent(lines[0]));
    OpenedIsInSection(st, s.name);
    if s.props == [] {
      st' := st1;
    } else {
      GoodPropsAreGood(s.props);
      var open := Section(st.handle.value, s.name, []);
      SurvivingDistinct(s.props);
      DistinctProps(open, Surviving(s.props));
      assert [] + PropsOf(Surviving(s.props)) == PropsOf(Surviving(s.props));
      st' := PropsRun(st1, s.props, more);
    }
  }

  lemma ReadSectionsSplit(done: seq<Section>, h: Handle, ss: seq<DocSection>)
    requires ss != []
    ensures done + ReadSections(h, ss) ==
            done + [Section(h, ss[0].name, PropsOf(Surviving(ss[0].props)))] + ReadSections(h, ss[1..])
  {
    Assoc(done, [Section(h, ss[0].name, PropsOf(Surviving(ss[0].props)))], ReadSections(h, ss[1..]));
  }

  /** All printed sections of a handle up to its blank line. */
  lemma {:induction false} SectionsRun(st: State, ss: seq<DocSection>, rest: seq<Line>) returns (st': State)
    requires BetweenSections(st) && GoodSections(ss) && rest != [] && rest[0] == Blank
    ensures Run(st, SectionsLines(ss, rest)) == Run(st', rest)
    ensures Out(st') == Out(st) + ReadSections(st.handle.value, ss)
    ensures BetweenSections(st') || InSection(st')
    decreases |ss|
  {
    if ss == [] {
      st' := st;
    } else {
      var st1 := SectionRun(st, ss[0], SectionsLines(ss[1..], rest));
      ReadSectionsSplit(Out(st), st.handle.value, ss);
      if |ss| == 1 {
        st' := st1;
      } else {
        assert GoodSections(ss[1..]);
        st' := SectionsRun(st1, ss[1..], rest);
      }
    }
  }

  /** Before a handle line: nothing read, or a section that may still be open. */
  ghost predicate Ready(st: State) {
    (st.mode == Start && st.section.None? && st.prop.None?) || BetweenSections(st) || InSection(st)
  }

  /** A handle with its sections and its blank line. */
  lemma BlockRun(st: State, b: Block, rest: seq<Line>) returns (st': State)
    requires Ready(st) && GoodSections(b.sections) && rest != [] && rest[0] == Blank
    ensures Run(st, [HandleLine(b.handle)] + SectionsLines(b.sections, rest)) == Run(st', rest)
    ensures Ready(st') && Out(st') == Out(st) + ReadSections(b.handle, b.sections)
  {
    var lines := SectionsLines(b.sections, rest);
    RunStep(st, HandleLine(b.handle), lines);
    var st1 := (if st.mode == GetSect then Flush(st) else st).(mode := GetSect, handle := Some(b.handle));
    st' := SectionsRun(st1, b.sections, rest);
  }

  lemma BlankStep(st: State, next: Option<nat>)
    requires Ready(st)
    ensures Step(st, Blank, next).Some? && Out(Step(st, Blank, next).value) == Out(st)
    ensures next.Some? ==> Ready(Step(st, Blank, next).value)
    ensures next == None ==> Step(st, Blank, next).value.sections == Out(st)
  {
  }

  /** A whole document, read from any state that may precede a handle. */
  lemma {:induction false} BlocksRun(st: State, blocks: seq<Block>)
    requires Ready(st) && GoodDocument(blocks) && blocks != []
    ensures Run(st, BlocksLines(blocks)).Some?
    ensures Run(st, BlocksLines(blocks)).value.sections == Out(st) + ReadDocument(blocks)
    decreases |blocks|
  {
    var b, more := blocks[0], BlocksLines(blocks[1..]);
    var lines := [Blank] + more;
    var st1 := BlockRun(st, b, lines);
    BlankStep(st1, NextIndent(lines));
    DocumentSplit(Out(st), blocks);
    if |blocks| == 1 {
      LastBlock(Out(st1), blocks);
      LastStep(st1);
    } else {
      RunStep(st1, Blank, more);
      BlocksRun(Step(st1, Blank, NextIndent(lines)).value, blocks[1..]);
    }
  }

  lemma LastStep(st: State)
    ensures Run(st, [Blank]) == Step(st, Blank, None)
  {
  }

  lemma Assoc<T>(a: seq<T>, b: seq<T>, c: seq<T>)
    ensures (a + b) + c == a + (b + c)
  {
  }

  lemma DocumentSplit(done: seq<Section>, blocks: seq<Block>)
    requires blocks != []
    ensures done + ReadDocument(blocks) == done + ReadSections(blocks[0].handle, blocks[0].sections) + ReadDocument(blocks[1..])
  {
    Assoc(done, ReadSections(blocks[0].handle, blocks[0].sections), ReadDocument(blocks[1..]));
  }

  /** After the last block there is only its blank line. */
  lemma LastBlock(done: seq<Section>, blocks: seq<Block>)
    requires |blocks| == 1
    ensures done + ReadDocument(blocks[1..]) == done && [Blank] + BlocksLines(blocks[1..]) == [Blank]
  {
    assert blocks[1..] == [];
    assert ReadDocument([]) == [] && BlocksLines([]) == [];
  }

  /** Text before the first handle is skipped. */
  lemma {:induction false} PreambleRun(pre: seq<Line>, rest: seq<Line>)
    requires forall i :: 0 <= i < |pre| ==> pre[i].Blank? || pre[i].Text?
    ensures Run(INITIAL, pre + rest) == Run(INITIAL, rest)
    decreases |pre|
  {
    if pre == [] {
      assert pre + rest == rest;
    } else {
      assert (pre + rest)[1..] == pre[1..] + rest;
      PreambleRun(pre[1..], rest);
    }
  }

  // ----- When nothing is lost: counting section names -----

  predicate IsName(l: Line) {
    l.Text? && l.indent == 0
  }

  /** Lines that may open a section. */
  function Names(lines: seq<Line>): nat
    decreases |lines|
  {
    if lines == [] then 0 else (if IsName(lines[0]) then 1 else 0) + Names(lines[1..])
  }

  /** Two names in a row. */
  predicate Doubled(lines: seq<Line>)
    decreases |lines|
  {
    |lines| > 1 && ((IsName(lines[0]) && IsName(lines[1])) || Doubled(lines[1..]))
  }

  /** Indents stay below 3, and blank and handle lines precede unindented ones. */
  predicate Flat(lines: seq<Line>)
    decreases |lines|
  {
    lines != [] ==>
      && Indent(lines[0]) <= 2
      && (|lines| > 1 && !lines[0].Text? ==> Indent(lines[1]) == 0)
      && Flat(lines[1..])
  }

  /** The next line is a name that will not be taken as one, or two names follow each other. */
  predicate Loses(st: State, lines: seq<Line>) {
    Doubled(lines) || (lines != [] && IsName(lines[0]) && st.mode != GetSect)
  }

  ghost predicate Aligned(st: State, lines: seq<Line>) {
    st.mode == GetSect && lines != [] ==> Indent(lines[0]) == 0
  }

  /** A line opens a section only if it is a name read between sections. */
  lemma StepCounts(st: State, l: Line, next: Option<nat>)
    requires Indent(l) <= 2 && (st.mode == GetSect ==> Indent(l) == 0) && (!l.Text? && next.Some? ==> next.value == 0)
    requires Step(st, l, next).Some?
    ensures var st1 := Step(st, l, next).value;
            && |Out(st1)| <= |Out(st)| + (if IsName(l) && st.mode == GetSect then 1 else 0)
            && (st1.mode == GetSect && next.Some? ==> next.value == 0)
            && (IsName(l) && st.mode == GetSect ==> st1.mode == GetProp)
  {
  }

  /** A run ends with at most one section per name, and with fewer once a name is lost. */
  lemma {:induction false} RunCounts(st: State, lines: seq<Line>)
    requires Flat(lines) && Aligned(st, lines) && Run(st, lines).Some?
    ensures |Run(st, lines).value.sections| + (if Loses(st, lines) then 1 else 0) <= |Out(st)| + Names(lines)
    decreases |lines|
  {
    if lines != [] {
      StepCounts(st, lines[0], NextIndent(lines));
      RunCounts(Step(st, lines[0], NextIndent(lines)).value, lines[1..]);
    }
  }

  // ----- What printing writes -----

  lemma {:induction false} ItemLinesCount(items: seq<string>, rest: seq<Line>)
    requires Flat(rest)
    ensures var lines := ItemLines(items, rest);
            Flat(lines) && Names(lines) == Names(rest) && Doubled(lines) == Doubled(rest)
    decreases |items|
  {
    if items != [] {
      ItemLinesCount(items[1..], rest);
      NotAName(Text(2, items[0]), ItemLines(items[1..], rest));
    }
  }

  /** A line that is no name neither counts nor doubles. */
  lemma NotAName(l: Line, rest: seq<Line>)
    requires Flat(rest) && l.Text? && 0 < l.indent <= 2
    ensures var lines := [l] + rest; Flat(lines) && Names(lines) == Names(rest) && Doubled(lines) == Doubled(rest)
  {
    assert ([l] + rest)[1..] == rest;
  }

  lemma {:induction false} PropsLinesCount(props: seq<DocProp>, rest: seq<Line>)
    requires Flat(rest)
    ensures var lines := PropsLines(props, rest);
            Flat(lines) && Names(lines) == Names(rest) && Doubled(lines) == Doubled(rest)
    decreases |props|
  {
    if props != [] {
      PropsLinesCount(props[1..], rest);
      ItemLinesCount(props[0].items, PropsLines(props[1..], rest));
      NotAName(PropLine(props[0]), ItemLines(props[0].items, PropsLines(props[1..], rest)));
    }
  }

  lemma NameCounts(name: string, rest: seq<Line>)
    requires Flat(rest)
    ensures var lines := [Text(0, name)] + rest;
            && Flat(lines) && Names(lines) == Names(rest) + 1
            && (Doubled(lines) <==> Doubled(rest) || (rest != [] && IsName(rest[0])))
  {
    assert ([Text(0, name)] + rest)[1..] == rest;
  }

  /** Every section but the last has properties. */
  ghost predicate NoGap(ss: seq<DocSection>) {
    forall i :: 0 <= i < |ss| - 1 ==> ss[i].props != []
  }

  lemma {:induction false} SectionsLinesCount(ss: seq<DocSection>, rest: seq<Line>)
    requires Flat(rest) && rest != [] && Indent(rest[0]) == 0
    ensures var lines := SectionsLines(ss, rest);
            && Flat(lines) && lines != [] && Indent(lines[0]) == 0 && Names(lines) == |ss| + Names(rest)
            && (Doubled(rest) || !NoGap(ss) ==> Doubled(lines))
    decreases |ss|
  {
    if ss != [] {
      var more := SectionsLines(ss[1..], rest);
      SectionsLinesCount(ss[1..], rest);
      PropsLinesCount(ss[0].props, more);
      NameCounts(ss[0].name, PropsLines(ss[0].props, more));
      NoGapCons(ss);
      if !NoGap(ss) && NoGap(ss[1..]) {
        assert PropsLines(ss[0].props, more) == more && more[0] == Text(0, ss[1].name);
      }
    }
  }

  lemma NoGapCons(ss: seq<DocSection>)
    requires ss != []
    ensures NoGap(ss) <==> NoGap(ss[1..]) && (|ss| > 1 ==> ss[0].props != [])
  {
    assert forall i :: 0 <= i < |ss| - 1 ==> ss[1..][i] == ss[i + 1];
    if NoGap(ss[1..]) && (|ss| > 1 ==> ss[0].props != []) {
      forall i | 0 <= i < |ss| - 1 ensures ss[i].props != [] {
        assert i > 0 ==> ss[i] == ss[1..][i - 1];
      }
    }
  }

  ghost predicate NoGaps(blocks: seq<Block>) {
    forall i :: 0 <= i < |blocks| ==> NoGap(blocks[i].sections)
  }

  lemma NoGapsCons(blocks: seq<Block>)
    requires blocks != []
    ensures NoGap(blocks[0].sections) && NoGaps(blocks[1..]) ==> NoGaps(blocks)
  {
    if NoGap(blocks[0].sections) && NoGaps(blocks[1..]) {
      forall i | 0 <= i < |blocks| ensures NoGap(blocks[i].sections) {
        assert i > 0 ==> blocks[i] == blocks[1..][i - 1];
      }
    }
  }

  lemma {:induction false} SectionsOfCount(h: Handle, ss: seq<DocSection>)
    ensures |SectionsOf(h, ss)| == |ss|
    decreases |ss|
  {
    if ss != [] {
      SectionsOfCount(h, ss[1..]);
    }
  }

  lemma OtherLine(l: Line, rest: seq<Line>)
    requires Flat(rest) && !l.Text? && (rest != [] ==> Indent(rest[0]) == 0)
    ensures var lines := [l] + rest; Flat(lines) && Names(lines) == Names(rest) && Doubled(lines) == Doubled(rest)
  {
    assert ([l] + rest)[1..] == rest;
  }

  lemma {:induction false} BlocksLinesCount(blocks: seq<Block>)
    ensures var lines := BlocksLines(blocks);
            && Flat(lines) && (lines != [] ==> Indent(lines[0]) == 0) && Names(lines) == |DocumentOf(blocks)|
            && (!NoGaps(blocks) ==> Doubled(lines))
    decreases |blocks|
  {
    if blocks != [] {
      var b, more := blocks[0], BlocksLines(blocks[1..]);
      BlocksLinesCount(blocks[1..]);
      OtherLine(Blank, more);
      SectionsLinesCount(b.sections, [Blank] + more);
      OtherLine(HandleLine(b.handle), SectionsLines(b.sections, [Blank] + more));
      SectionsOfCount(b.handle, b.sections);
      NoGapsCons(blocks);
    }
  }

  /** Well-formed properties in every section. */
  ghost predicate GoodContents(blocks: seq<Block>) {
    forall i, j :: 0 <= i < |blocks| && 0 <= j < |blocks[i].sections| ==> GoodProps(blocks[i].sections[j].props)
  }

  /** Without gaps everything is read back but bare properties before others. */
  lemma DocumentRead(pre: seq<Line>, blocks: seq<Block>)
    requires forall i :: 0 <= i < |pre| ==> pre[i].Blank? || pre[i].Text?
    requires GoodContents(blocks) && NoGaps(blocks)
    ensures Parsed(pre + BlocksLines(blocks)) == Some(ReadDocument(blocks))
  {
    PreambleRun(pre, BlocksLines(blocks));
    if blocks != [] {
      BlocksRun(INITIAL, blocks);
      assert [] + ReadDocument(blocks) == ReadDocument(blocks);
    }
  }

  ghost predicate NoBares(blocks: seq<Block>) {
    forall i, j :: 0 <= i < |blocks| && 0 <= j < |blocks[i].sections| ==> NoBare(blocks[i].sections[j].props)
  }

  lemma SectionKept(h: Handle, s: DocSection)
    ensures PropsOf(Surviving(s.props)) == PropsOf(s.props) <==> NoBare(s.props)
  {
    SurvivingAll(s.props);
    PropsOfCount(s.props);
    PropsOfCount(Surviving(s.props));
  }

  lemma {:induction false} SectionsKept(h: Handle, ss: seq<DocSection>)
    ensures |ReadSections(h, ss)| == |SectionsOf(h, ss)| == |ss|
    ensures ReadSections(h, ss) == SectionsOf(h, ss) <==> forall j :: 0 <= j < |ss| ==> NoBare(ss[j].props)
    decreases |ss|
  {
    if ss != [] {
      SectionKept(h, ss[0]);
      SectionsKept(h, ss[1..]);
      SameCons(Section(h, ss[0].name, PropsOf(Surviving(ss[0].props))), ReadSections(h, ss[1..]),
               Section(h, ss[0].name, PropsOf(ss[0].props)), SectionsOf(h, ss[1..]));
      AllCons(ss);
    }
  }

  lemma SameCons<T>(a: T, s: seq<T>, b: T, t: seq<T>)
    ensures [a] + s == [b] + t <==> a == b && s == t
  {
    if [a] + s == [b] + t {
      assert ([a] + s)[0] == a && ([b] + t)[0] == b;
      assert ([a] + s)[1..] == s && ([b] + t)[1..] == t;
    }
  }

  lemma AllCons(ss: seq<DocSection>)
    requires ss != []
    ensures (forall j :: 0 <= j < |ss| ==> NoBare(ss[j].props)) <==>
            NoBare(ss[0].props) && forall j :: 0 <= j < |ss[1..]| ==> NoBare(ss[1..][j].props)
  {
    if NoBare(ss[0].props) && forall j :: 0 <= j < |ss[1..]| ==> NoBare(ss[1..][j].props) {
      forall j | 0 <= j < |ss| ensures NoBare(ss[j].props) {
        assert j > 0 ==> ss[j] == ss[1..][j - 1];
      }
    }
  }

  lemma SameConcat<T>(a: seq<T>, s: seq<T>, b: seq<T>, t: seq<T>)
    requires |a| == |b|
    ensures a + s == b + t <==> a == b && s == t
  {
    if a + s == b + t {
      assert (a + s)[..|a|] == a && (b + t)[..|a|] == b;
      assert (a + s)[|a|..] == s && (b + t)[|a|..] == t;
    }
  }

  lemma {:induction false} DocumentKept(blocks: seq<Block>)
    ensures ReadDocument(blocks) == DocumentOf(blocks) <==> NoBares(blocks)
    decreases |blocks|
  {
    if blocks != [] {
      var b := blocks[0];
      SectionsKept(b.handle, b.sections);
      DocumentKept(blocks[1..]);
      SameConcat(ReadSections(b.handle, b.sections), ReadDocument(blocks[1..]),
                 SectionsOf(b.handle, b.sections), DocumentOf(blocks[1..]));
      NoBaresCons(blocks);
    }
  }

  lemma NoBaresCons(blocks: seq<Block>)
    requires blocks != []
    ensures NoBares(blocks) <==>
            (forall j :: 0 <= j < |blocks[0].sections| ==> NoBare(blocks[0].sections[j].props)) && NoBares(blocks[1..])
  {
    assert forall i :: 0 <= i < |blocks| - 1 ==> blocks[1..][i] == blocks[i + 1];
    if (forall j :: 0 <= j < |blocks[0].sections| ==> NoBare(blocks[0].sections[j].props)) && NoBares(blocks[1..]) {
      forall i, j | 0 <= i < |blocks| && 0 <= j < |blocks[i].sections| ensures NoBare(blocks[i].sections[j].props) {
        assert i > 0 ==> blocks[i] == blocks[1..][i - 1];
      }
    }
  }

  /** Parsing what was printed returns the document exactly when no section without
      properties is followed by another one of its handle, and no property without
      value and items by another one of its section. */
  lemma DocumentRoundTrip(pre: seq<Line>, blocks: seq<Block>)
    requires forall i :: 0 <= i < |pre| ==> pre[i].Blank? || pre[i].Text?
    requires GoodContents(blocks)
    ensures Parsed(pre + BlocksLines(blocks)) == Some(DocumentOf(blocks)) <==> NoGaps(blocks) && NoBares(blocks)
  {
    if NoGaps(blocks) {
      DocumentRead(pre, blocks);
      DocumentKept(blocks);
    } else {
      PreambleRun(pre, BlocksLines(blocks));
      GapLosesSection(blocks);
    }
  }

  /** After a gap, whatever the names and properties are: an exception, or fewer
      sections than were printed. */
  lemma GapLosesSection(blocks: seq<Block>)
    requires !NoGaps(blocks)
    ensures Parsed(BlocksLines(blocks)).Some? ==> |Parsed(BlocksLines(blocks)).value| < |DocumentOf(blocks)|
  {
    BlocksLinesCount(blocks);
    if Run(INITIAL, BlocksLines(blocks)).Some? {
      RunCounts(INITIAL, BlocksLines(blocks));
    }
  }

  /** The next section's name is read as a property line: without a colon in it
      that is an exception. */
  lemma EmptySectionBreaksNext(h: Handle, name: string, next: string)
    requires ':' !in next
    ensures Parsed([HandleLine(h), Text(0, name), Text(0, next), Blank]) == None
  {
    NoColon(next);
    var l2 := [Text(0, next), Blank];
    var l1 := [Text(0, name)] + l2;
    assert [HandleLine(h), Text(0, name), Text(0, next), Blank] == [HandleLine(h)] + l1;
    RunStep(INITIAL, HandleLine(h), l1);
    var st1 := State(GetSect, Some(h), None, None, "", []);
    RunStep(st1, Text(0, name), l2);
    NameStep(st1, name, 0);
  }

  lemma {:induction false} NoColon(s: string)
    requires ':' !in s
    ensures Colon(s) == |s|
    decreases |s|
  {
    if s != "" {
      NoColon(s[1..]);
    }
  }
}
