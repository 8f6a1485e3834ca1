/** getToken of core/modules/run-virt/winres/src/winres.c: an in-place tokenizer
    that overwrites separators and surrounding spaces with NUL. */
module Tokens {
  import opened Bits

  predicate IsSep(c: char) {
    c == '\n' || c == '\r' || c == '\t'
  }

  // ----- What a token is -----

  /** Index of the first separator from i on, or the end. */
  function SepAt(s: string, i: nat): (k: nat)
    requires i <= |s|
    ensures i <= k <= |s|
    decreases |s| - i
  {
    if i == |s| || IsSep(s[i]) then i else SepAt(s, i + 1)
  }

  /** Index of the first character from i on that is no space, or the end. */
  function SpacesEnd(s: string, i: nat): (k: nat)
    requires i <= |s|
    ensures i <= k <= |s|
    decreases |s| - i
  {
    if i == |s| || s[i] != ' ' then i else SpacesEnd(s, i + 1)
  }

  /** End of s[lo..hi] without its trailing spaces. */
  function TrimTo(s: string, lo: nat, hi: nat): (k: nat)
    requires lo <= hi <= |s|
    ensures lo <= k <= hi
  {
    if hi == lo || s[hi - 1] != ' ' then hi else TrimTo(s, lo, hi - 1)
  }

  function Strip(s: string): string {
    var lead := SpacesEnd(s, 0);
    s[lead..TrimTo(s, lead, |s|)]
  }

  /** What getToken finds in a text: the bounds of its first field, where its
      spaces end, and how far trimming looks. */
  datatype Shape = Shape(sep: nat, lead: nat, look: nat)

  /** A field without a separator is trimmed from one character too early. */
  function ShapeOf(s: string): (r: Shape)
    ensures r.lead <= r.look <= r.sep <= |s|
  {
    LeadBeforeSep(s, 0);
    var sep, lead := SepAt(s, 0), SpacesEnd(s, 0);
    Shape(sep, lead, if sep < |s| || sep == lead then sep else sep - 1)
  }

  /** The token getToken returns from a non-empty text. */
  function TokenText(s: string, doTrim: bool): string {
    var h := ShapeOf(s);
    if !doTrim then s[..h.sep]
    else
      var cut := TrimTo(s, h.lead, h.look);
      if cut < h.look then s[h.lead..cut] else s[h.lead..h.sep]
  }

  /** The text after the token and its separator. */
  function Rest(s: string): string {
    var sep := SepAt(s, 0);
    if sep < |s| then s[sep + 1..] else ""
  }

  lemma LeadBeforeSep(s: string, i: nat)
    requires i <= |s|
    ensures SpacesEnd(s, i) <= SepAt(s, i)
    decreases |s| - i
  {
    if i < |s| && s[i] == ' ' {
      LeadBeforeSep(s, i + 1);
    }
  }

  lemma {:induction false} SepUnique(s: string, i: nat, k: nat)
    requires i <= k <= |s| && (k < |s| ==> IsSep(s[k]))
    requires forall j :: i <= j < k ==> !IsSep(s[j])
    ensures SepAt(s, i) == k
    decreases k - i
  {
    if i < k {
      SepUnique(s, i + 1, k);
    }
  }

  lemma {:induction false} SpacesUnique(s: string, i: nat, k: nat)
    requires i <= k <= |s| && (k < |s| ==> s[k] != ' ')
    requires forall j :: i <= j < k ==> s[j] == ' '
    ensures SpacesEnd(s, i) == k
    decreases k - i
  {
    if i < k {
      SpacesUnique(s, i + 1, k);
    }
  }

  lemma {:induction false} TrimUnique(s: string, lo: nat, hi: nat, k: nat)
    requires lo <= k <= hi <= |s| && (k > lo ==> s[k - 1] != ' ')
    requires forall j :: k <= j < hi ==> s[j] == ' '
    ensures TrimTo(s, lo, hi) == k
    decreases hi
  {
    if k < hi {
      TrimUnique(s, lo, hi - 1, k);
    }
  }

  /** A text that begins with a field has the field's own spaces and trimming. */
  lemma {:induction false} SamePrefixTrim(s: string, f: string, lo: nat, hi: nat)
    requires f <= s && lo <= hi <= |f|
    ensures TrimTo(s, lo, hi) == TrimTo(f, lo, hi)
    decreases hi
  {
    if hi > lo && f[hi - 1] == ' ' {
      SamePrefixTrim(s, f, lo, hi - 1);
    }
  }

  lemma {:induction false} SamePrefixSpaces(s: string, f: string, i: nat)
    requires f <= s && i <= |f| && (|f| < |s| ==> s[|f|] != ' ')
    ensures SpacesEnd(s, i) == SpacesEnd(f, i)
    decreases |f| - i
  {
    if i < |f| && f[i] == ' ' {
      SamePrefixSpaces(s, f, i + 1);
    }
  }

  /** A terminated field is stripped. */
  lemma TerminatedToken(s: string, f: string)
    requires f < s && s[|f|] in "\t\r\n" && Clean(f)
    ensures SepAt(s, 0) == |f| && TokenText(s, true) == Strip(f) && TokenText(s, false) == f
  {
    SepUnique(s, 0, |f|);
    SamePrefixSpaces(s, f, 0);
    var lead := SpacesEnd(f, 0);
    SamePrefixTrim(s, f, lead, |f|);
  }

  /** A field at the end of the text is stripped exactly unless it has two or more
      characters after its leading spaces and just one of the last two is a space. */
  lemma OpenToken(f: string)
    requires forall j :: 0 <= j < |f| ==> !IsSep(f[j])
    ensures var lead := SpacesEnd(f, 0);
            TokenText(f, true) == Strip(f) <==>
            (|f| >= lead + 2 ==> (f[|f| - 1] == ' ' <==> f[|f| - 2] == ' '))
  {
    NotASpace(f, 0);
    OpenTokenEnd(f);
    var lead := SpacesEnd(f, 0);
    if |f| >= lead + 2 {
      TrimTwo(f, lead, |f|);
    }
  }

  /** A last field with a space before its last character loses that character. */
  lemma OpenTokenIsCut()
    ensures TokenText("ab c", true) == "ab" && Strip("ab c") == "ab c"
  {
    var f := "ab c";
    SepUnique(f, 0, 4);
    assert SpacesEnd(f, 0) == 0;
    TrimUnique(f, 0, 3, 2);
    TrimUnique(f, 0, 4, 4);
  }

  /** Where the token of an open field ends, which decides whether it is stripped. */
  lemma OpenTokenEnd(f: string)
    requires forall j :: 0 <= j < |f| ==> !IsSep(f[j])
    ensures var n, lead := |f|, SpacesEnd(f, 0);
            TokenText(f, true) == Strip(f) <==>
            n == lead || TrimTo(f, lead, n) == if TrimTo(f, lead, n - 1) < n - 1 then TrimTo(f, lead, n - 1) else n
  {
    SepUnique(f, 0, |f|);
    var n, lead := |f|, SpacesEnd(f, 0);
    assert |Strip(f)| == TrimTo(f, lead, n) - lead;
  }

  lemma TrimTwo(s: string, lo: nat, hi: nat)
    requires lo + 2 <= hi <= |s|
    ensures TrimTo(s, lo, hi) == if s[hi - 1] != ' ' then hi else TrimTo(s, lo, hi - 1)
    ensures TrimTo(s, lo, hi - 1) == if s[hi - 2] != ' ' then hi - 1 else TrimTo(s, lo, hi - 2)
  {
  }

  lemma NotASpace(s: string, i: nat)
    requires i <= |s|
    ensures SpacesEnd(s, i) < |s| ==> s[SpacesEnd(s, i)] != ' '
    decreases |s| - i
  {
    if i < |s| && s[i] == ' ' {
      NotASpace(s, i + 1);
    }
  }

  // ----- Whole lines -----

  /** The text left after k calls. */
  function RestAfter(s: string, k: nat): string {
    if k == 0 then s else Rest(RestAfter(s, k - 1))
  }

  /** What the k-th call returns; None is NULL. */
  function NthToken(s: string, k: nat, doTrim: bool): Option<string> {
    var r := RestAfter(s, k);
    if r == "" then None else Some(TokenText(r, doTrim))
  }

  ghost predicate Clean(field: string) {
    '\t' !in field && '\r' !in field && '\n' !in field
  }

  /** Tab-separated fields and a final newline. */
  function Line(fields: seq<string>): string {
    if fields == [] then ""
    else if |fields| == 1 then fields[0] + "\n"
    else fields[0] + "\t" + Line(fields[1..])
  }

  lemma LineHead(fields: seq<string>)
    requires fields != [] && Clean(fields[0])
    ensures Line(fields) != "" && Rest(Line(fields)) == Line(fields[1..])
    ensures TokenText(Line(fields), true) == Strip(fields[0]) && TokenText(Line(fields), false) == fields[0]
  {
    var line, f := Line(fields), fields[0];
    var rest := Line(fields[1..]);
    assert |fields| == 1 ==> rest == "";
    assert line == f + [line[|f|]] + rest;
    TerminatedToken(line, f);
  }

  lemma {:induction false} LineRest(fields: seq<string>, k: nat)
    requires forall i :: 0 <= i < |fields| ==> Clean(fields[i])
    ensures RestAfter(Line(fields), k) == if k < |fields| then Line(fields[k..]) else ""
  {
    if k == 0 {
      assert fields[0..] == fields;
    } else {
      LineRest(fields, k - 1);
      if k - 1 < |fields| {
        LineTail(fields, k - 1);
      }
    }
  }

  lemma LineTail(fields: seq<string>, k: nat)
    requires k < |fields| && Clean(fields[k])
    ensures Rest(Line(fields[k..])) == Line(fields[k + 1..]) && (k + 1 == |fields| ==> Line(fields[k + 1..]) == "")
  {
    LineHead(fields[k..]);
    assert fields[k..][1..] == fields[k + 1..];
  }

  /** A terminated line yields its fields in order, stripped or raw, and then NULL. */
  lemma LineTokens(fields: seq<string>, k: nat, doTrim: bool)
    requires forall i :: 0 <= i < |fields| ==> Clean(fields[i])
    ensures NthToken(Line(fields), k, doTrim) ==
            if k < |fields| then Some(if doTrim then Strip(fields[k]) else fields[k]) else None
  {
    LineRest(fields, k);
    if k < |fields| {
      LineHead(fields[k..]);
    }
  }

  // ----- The C function -----

  /** The C string at index `at` is `s`. */
  ghost predicate IsText(buf: seq<char>, at: nat, s: string) {
    && at + |s| < |buf| && buf[at + |s|] == '\0'
    && forall j :: 0 <= j < |s| ==> s[j] == buf[at + j] && s[j] != '\0'
  }

  lemma TextChars(buf: seq<char>, at: nat, s: string)
    requires IsText(buf, at, s)
    ensures forall j :: at <= j < at + |s| ==> buf[j] == s[j - at] && buf[j] != '\0'
  {
  }

  /** NUL written over b[lo..hi]. */
  ghost function Blank(b: seq<char>, lo: nat, hi: nat): (r: seq<char>)
    requires lo <= hi <= |b|
    ensures |r| == |b| && forall j :: 0 <= j < |b| ==> r[j] == if lo <= j < hi then '\0' else b[j]
  {
    seq(|b|, j requires 0 <= j < |b| => if lo <= j < hi then '\0' else b[j])
  }

  /** First loop: blank out leading spaces. */
  method SkipSpaces(buf: array<char>, ptr: nat, ghost s: string) returns (dest: nat)
    requires IsText(buf[..], ptr, s)
    modifies buf
    ensures dest == ptr + SpacesEnd(s, 0)
    ensures buf[..] == Blank(old(buf[..]), ptr, dest)
  {
    TextChars(buf[..], ptr, s);
    dest := ptr;
    while buf[dest] == ' '
      invariant ptr <= dest <= ptr + |s|
      invariant forall j :: ptr <= j < dest ==> old(buf[j]) == ' '
      invariant forall j :: 0 <= j < buf.Length ==> buf[j] == if ptr <= j < dest then '\0' else old(buf[j])
      decreases ptr + |s| - dest
    {
      buf[dest] := '\0';
      dest := dest + 1;
    }
    SpacesUnique(s, 0, dest - ptr);
  }

  lemma SepSpec(s: string, i: nat)
    requires i <= |s|
    ensures var k := SepAt(s, i); (k < |s| ==> IsSep(s[k])) && forall j :: i <= j < k ==> !IsSep(s[j])
    decreases |s| - i
  {
  }

  /** Second loop: from `dest`, inside the text at `ptr`, find the separator and overwrite it. */
  method FindEnd(buf: array<char>, ptr: nat, dest: nat, ghost s: string) returns (p: nat)
    requires ptr <= dest <= ptr + SepAt(s, 0) && ptr + |s| < buf.Length && buf[ptr + |s|] == '\0'
    requires forall j :: dest - ptr <= j < |s| ==> s[j] == buf[ptr + j] && s[j] != '\0'
    modifies buf
    ensures p == Next(ptr, s)
    ensures buf[..] == old(buf[..])[ptr + SepAt(s, 0) := '\0']
  {
    p := dest;
    ghost var sep := SepAt(s, 0);
    SepSpec(s, 0);
    while buf[p] != '\0'
      modifies {}
      invariant dest <= p <= ptr + sep
      decreases ptr + |s| - p
    {
      assert s[p - ptr] == buf[ptr + (p - ptr)];
      if IsSep(buf[p]) {
        break;
      }
      p := p + 1;
    }
    assert p - ptr < |s| ==> s[p - ptr] == buf[ptr + (p - ptr)];
    if buf[p] != '\0' {
      buf[p] := '\0';
      p := p + 1;
    }
  }

  /** Where getToken leaves *ptr. */
  function Next(ptr: nat, s: string): nat {
    ptr + SepAt(s, 0) + if SepAt(s, 0) < |s| then 1 else 0
  }

  /** Third loop: blank out the spaces before `look`, which is just before `dest`
      for an open field without characters. */
  method TrimEnd(buf: array<char>, ptr: nat, dest: nat, look: int, ghost s: string, ghost to: nat)
    requires ptr <= dest <= ptr + to && to <= |s| && ptr + to < buf.Length
    requires look == ptr + to || (look == ptr + to - 1 && dest == ptr + to)
    requires forall j :: dest <= j < ptr + to ==> buf[j] == s[j - ptr]
    modifies buf
    ensures buf[..] == Blank(old(buf[..]), ptr + TrimTo(s, dest - ptr, to), ptr + to)
  {
    var trim := look;
    while trim > dest && buf[trim - 1] == ' '
      invariant trim <= look && (trim < look ==> dest <= trim)
      invariant forall j :: trim <= j < look ==> old(buf[j]) == ' '
      invariant forall j :: 0 <= j < buf.Length ==> buf[j] == if trim <= j < look then '\0' else old(buf[j])
      decreases trim
    {
      trim := trim - 1;
      buf[trim] := '\0';
    }
    ghost var cut := if look < dest then to else trim - ptr;
    assert forall j :: cut <= j < to ==> s[j] == old(buf[ptr + j]);
    TrimUnique(s, dest - ptr, to, cut);
  }

  lemma RestIsText(b0: seq<char>, b1: seq<char>, ptr: nat, s: string)
    requires IsText(b0, ptr, s) && |b1| == |b0|
    requires forall j :: Next(ptr, s) <= j < |b0| ==> b1[j] == b0[j]
    ensures IsText(b1, Next(ptr, s), Rest(s))
  {
    var r, next := Rest(s), Next(ptr, s);
    forall j | 0 <= j < |r|
      ensures r[j] == b1[next + j] && r[j] != '\0'
    {
      assert r[j] == s[next - ptr + j];
    }
  }

  /** Part of a text, followed by a NUL, is a text. */
  lemma PartIsText(b0: seq<char>, b1: seq<char>, ptr: nat, s: string, lo: nat, hi: nat)
    requires IsText(b0, ptr, s) && |b1| == |b0| && lo <= hi <= |s| && b1[ptr + hi] == '\0'
    requires forall j :: ptr + lo <= j < ptr + hi ==> b1[j] == b0[j]
    ensures IsText(b1, ptr + lo, s[lo..hi])
  {
    forall j | 0 <= j < hi - lo
      ensures s[lo..hi][j] == b1[ptr + lo + j] && s[lo..hi][j] != '\0'
    {
      assert s[lo..hi][j] == s[lo + j];
    }
  }

  /** The buffer after a call on the text s at ptr. */
  ghost function After(b: seq<char>, ptr: nat, s: string, doTrim: bool): seq<char>
    requires IsText(b, ptr, s)
  {
    var h := ShapeOf(s);
    if s == "" then b
    else if !doTrim then b[ptr + h.sep := '\0']
    else Blank(Blank(b, ptr, ptr + h.lead)[ptr + h.sep := '\0'], ptr + TrimTo(s, h.lead, h.look), ptr + h.look)
  }

  function TokenAt(ptr: nat, s: string, doTrim: bool): nat {
    if doTrim then ptr + ShapeOf(s).lead else ptr
  }

  lemma AfterFrame(b: seq<char>, ptr: nat, s: string, doTrim: bool)
    requires IsText(b, ptr, s) && s != ""
    ensures var b2 := After(b, ptr, s, doTrim);
            |b2| == |b| && forall j :: (0 <= j < ptr || Next(ptr, s) <= j < |b|) ==> b2[j] == b[j]
  {
  }

  lemma AfterKeeps(b: seq<char>, ptr: nat, s: string)
    requires IsText(b, ptr, s) && s != ""
    ensures var b2, h := After(b, ptr, s, true), ShapeOf(s);
            var cut := TrimTo(s, h.lead, h.look);
            var keep := if cut < h.look then cut else h.sep;
            |b2| == |b| && b2[ptr + keep] == '\0' && forall j :: ptr + h.lead <= j < ptr + keep ==> b2[j] == b[j]
  {
  }

  /** A call leaves the token and the rest as C strings and touches nothing else. */
  lemma AfterCall(b: seq<char>, ptr: nat, s: string, doTrim: bool)
    requires IsText(b, ptr, s) && s != ""
    ensures var b2 := After(b, ptr, s, doTrim);
            && |b2| == |b|
            && IsText(b2, TokenAt(ptr, s, doTrim), TokenText(s, doTrim))
            && IsText(b2, Next(ptr, s), Rest(s))
            && forall j :: (0 <= j < ptr || Next(ptr, s) <= j < |b|) ==> b2[j] == b[j]
  {
    AfterFrame(b, ptr, s, doTrim);
    RestIsText(b, After(b, ptr, s, doTrim), ptr, s);
    TokenIsText(b, ptr, s, doTrim);
  }

  lemma TokenIsText(b: seq<char>, ptr: nat, s: string, doTrim: bool)
    requires IsText(b, ptr, s) && s != ""
    ensures IsText(After(b, ptr, s, doTrim), TokenAt(ptr, s, doTrim), TokenText(s, doTrim))
  {
    if doTrim {
      TrimmedIsText(b, ptr, s);
    } else {
      PartIsText(b, After(b, ptr, s, false), ptr, s, 0, ShapeOf(s).sep);
    }
  }

  lemma TrimmedIsText(b: seq<char>, ptr: nat, s: string)
    requires IsText(b, ptr, s) && s != ""
    ensures IsText(After(b, ptr, s, true), ptr + ShapeOf(s).lead, TokenText(s, true))
  {
    var h := ShapeOf(s);
    AfterKeeps(b, ptr, s);
    var cut := TrimTo(s, h.lead, h.look);
    PartIsText(b, After(b, ptr, s, true), ptr, s, h.lead, if cut < h.look then cut else h.sep);
  }

  /** getToken; the token is an index into the buffer, NULL is None. */
  method GetToken(buf: array<char>, ptr: nat, doTrim: bool, ghost s: string) returns (token: Option<nat>, next: nat)
    requires IsText(buf[..], ptr, s)
    modifies buf
    ensures token == if s == "" then None else Some(TokenAt(ptr, s, doTrim))
    ensures next == Next(ptr, s)
    ensures buf[..] == After(old(buf[..]), ptr, s, doTrim)
  {
    ghost var h := ShapeOf(s);
    assert s != "" ==> s[0] == buf[ptr + 0];
    if buf[ptr] == '\0' {
      return None, ptr;
    }
    var dest := ptr;
    if doTrim {
      dest := SkipSpaces(buf, ptr, s);
    }
    next := FindEnd(buf, ptr, dest, s);
    if doTrim {
      TrimEnd(buf, ptr, dest, next - 1, s, h.look);
    }
    token := Some(dest);
  }

  /** A token that ends before `limit`, or a text nothing will touch any more. */
  ghost predicate Settled(buf: seq<char>, at: nat, s: string, limit: nat, rest: string) {
    IsText(buf, at, s) && (at + |s| < limit || rest == "")
  }

  lemma CallKeepsSettled(b: seq<char>, at: nat, t: string, ptr: nat, s: string, doTrim: bool)
    requires IsText(b, ptr, s) && Settled(b, at, t, ptr, s)
    ensures Settled(After(b, ptr, s, doTrim), at, t, Next(ptr, s), Rest(s))
  {
    if s != "" {
      AfterFrame(b, ptr, s, doTrim);
    }
  }

  lemma CallSettles(b: seq<char>, ptr: nat, s: string, doTrim: bool)
    requires IsText(b, ptr, s) && s != ""
    ensures Settled(After(b, ptr, s, doTrim), TokenAt(ptr, s, doTrim), TokenText(s, doTrim), Next(ptr, s), Rest(s))
  {
    TokenIsText(b, ptr, s, doTrim);
  }

  /** A returned pointer and the token it stands for. */
  ghost predicate Read(buf: seq<char>, token: Option<nat>, text: Option<string>, limit: nat, rest: string) {
    (token.Some? <==> text.Some?) && (token.Some? ==> Settled(buf, token.value, text.value, limit, rest))
  }

  lemma CallKeepsRead(b: seq<char>, token: Option<nat>, text: Option<string>, ptr: nat, s: string, doTrim: bool)
    requires IsText(b, ptr, s) && Read(b, token, text, ptr, s)
    ensures Read(After(b, ptr, s, doTrim), token, text, Next(ptr, s), Rest(s))
  {
    if token.Some? {
      CallKeepsSettled(b, token.value, text.value, ptr, s, doTrim);
    }
  }

  /** The k-th call returns the k-th token and leaves the rest of the text. */
  lemma CallReads(b: seq<char>, ptr: nat, s: string, k: nat, doTrim: bool)
    requires IsText(b, ptr, RestAfter(s, k))
    ensures var r := RestAfter(s, k); var b2 := After(b, ptr, r, doTrim);
            && IsText(b2, Next(ptr, r), Rest(r))
            && Read(b2, if r == "" then None else Some(TokenAt(ptr, r, doTrim)), NthToken(s, k, doTrim), Next(ptr, r), Rest(r))
  {
    var r := RestAfter(s, k);
    if r != "" {
      AfterCall(b, ptr, r, doTrim);
      CallSettles(b, ptr, r, doTrim);
    }
  }

  /** The tokens so far, each intact in the buffer. */
  ghost predicate AllRead(b: seq<char>, tokens: seq<Option<nat>>, trims: seq<bool>, s: string, limit: nat, rest: string)
    requires |tokens| <= |trims|
  {
    forall j :: 0 <= j < |tokens| ==> Read(b, tokens[j], NthToken(s, j, trims[j]), limit, rest)
  }

  lemma AllReadKept(b: seq<char>, tokens: seq<Option<nat>>, trims: seq<bool>, s: string, ptr: nat, r: string, doTrim: bool)
    requires |tokens| <= |trims| && IsText(b, ptr, r) && AllRead(b, tokens, trims, s, ptr, r)
    ensures AllRead(After(b, ptr, r, doTrim), tokens, trims, s, Next(ptr, r), Rest(r))
  {
    forall j | 0 <= j < |tokens|
      ensures Read(After(b, ptr, r, doTrim), tokens[j], NthToken(s, j, trims[j]), Next(ptr, r), Rest(r))
    {
      CallKeepsRead(b, tokens[j], NthToken(s, j, trims[j]), ptr, r, doTrim);
    }
  }

  lemma AllReadSnoc(b: seq<char>, tokens: seq<Option<nat>>, trims: seq<bool>, s: string, limit: nat, rest: string, token: Option<nat>)
    requires |tokens| < |trims| && AllRead(b, tokens, trims, s, limit, rest)
    requires Read(b, token, NthToken(s, |tokens|, trims[|tokens|]), limit, rest)
    ensures AllRead(b, tokens + [token], trims, s, limit, rest)
  {
  }

  /** readShareFile reads a line by one getToken call per field; tokens are
      pointers into the line and stay intact while later ones are cut. */
  method ReadTokens(buf: array<char>, trims: seq<bool>, ghost s: string) returns (tokens: seq<Option<nat>>)
    requires IsText(buf[..], 0, s)
    modifies buf
    ensures |tokens| == |trims|
    ensures forall k :: 0 <= k < |trims| ==> (tokens[k].Some? <==> NthToken(s, k, trims[k]).Some?)
    ensures forall k :: 0 <= k < |trims| && tokens[k].Some? ==> IsText(buf[..], tokens[k].value, NthToken(s, k, trims[k]).value)
  {
    tokens := [];
    var ptr := 0;
    for k := 0 to |trims|
      invariant |tokens| == k && IsText(buf[..], ptr, RestAfter(s, k))
      invariant AllRead(buf[..], tokens, trims, s, ptr, RestAfter(s, k))
    {
      ghost var r := RestAfter(s, k);
      AllReadKept(buf[..], tokens, trims, s, ptr, r, trims[k]);
      CallReads(buf[..], ptr, s, k, trims[k]);
      var token, next := GetToken(buf, ptr, trims[k], r);
      AllReadSnoc(buf[..], tokens, trims, s, next, Rest(r), token);
      tokens := tokens + [token];
      ptr := next;
    }
  }
}
