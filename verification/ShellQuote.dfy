/** escapeShellArg of core/modules/run-virt/winres/src/winres.c, and the command
    line launchRunscript builds with it, read back by Microsoft's rules for
    splitting a command line into arguments. */
module ShellQuote {

  type Wide = string

  function Backslashes(n: nat): (r: Wide)
    ensures |r| == n
  {
    seq(n, _ => '\\')
  }

  // ----- Splitting, as documented for the Microsoft C runtime -----

  /** `open`: inside an argument; `quoted`: inside quotes; `bs`: backslashes
      read but not yet interpreted; `cur`: the argument so far. */
  function Split(s: Wide, open: bool, quoted: bool, bs: nat, cur: Wide): seq<Wide>
    decreases |s|
  {
    if s == "" then
      if open then [cur + Backslashes(bs)] else []
    else if s[0] == '\\' then
      Split(s[1..], true, quoted, bs + 1, cur)
    else if s[0] == '"' then
      if bs % 2 == 0 then Split(s[1..], true, !quoted, 0, cur + Backslashes(bs / 2))
      else Split(s[1..], true, quoted, 0, cur + Backslashes(bs / 2) + "\"")
    else if !quoted && (s[0] == ' ' || s[0] == '\t') then
      if open then [cur + Backslashes(bs)] + Split(s[1..], false, false, 0, "")
      else Split(s[1..], false, false, 0, "")
    else
      Split(s[1..], true, quoted, 0, cur + Backslashes(bs) + [s[0]])
  }

  function Arguments(commandLine: Wide): seq<Wide> {
    Split(commandLine, false, false, 0, "")
  }

  // ----- What a call with enough room writes -----

  /** The quoted text of `s` when `bs` backslashes precede it. */
  function Escaped(s: Wide, bs: nat): Wide
    decreases |s|
  {
    if s == "" then Backslashes(bs)
    else if s[0] == '\\' then "\\" + Escaped(s[1..], bs + 1)
    else if s[0] == '"' then Backslashes(bs) + "\\\"" + Escaped(s[1..], 0)
    else [s[0]] + Escaped(s[1..], 0)
  }

  function Quoted(s: Wide): Wide {
    "\"" + Escaped(s, 0) + "\""
  }

  /** Everything written up to and including the last input character. */
  function Body(s: Wide, bs: nat): Wide
    decreases |s|
  {
    if s == "" then ""
    else if s[0] == '\\' then "\\" + Body(s[1..], bs + 1)
    else if s[0] == '"' then Backslashes(bs) + "\\\"" + Body(s[1..], 0)
    else [s[0]] + Body(s[1..], 0)
  }

  /** Backslashes at the end of the input, which are doubled after the body. */
  function Trailing(s: Wide, bs: nat): nat
    decreases |s|
  {
    if s == "" then bs
    else if s[0] == '\\' then Trailing(s[1..], bs + 1)
    else Trailing(s[1..], 0)
  }

  lemma {:induction false} EscapedIsBody(s: Wide, bs: nat)
    ensures Escaped(s, bs) == Body(s, bs) + Backslashes(Trailing(s, bs))
    decreases |s|
  {
    if s == "" {
    } else {
      EscapedIsBody(s[1..], if s[0] == '\\' then bs + 1 else 0);
    }
  }

  lemma SkipBackslashes(n: nat, rest: Wide, open: bool, quoted: bool, bs: nat, cur: Wide)
    requires n > 0
    ensures Split(Backslashes(n) + rest, open, quoted, bs, cur) == Split(rest, true, quoted, bs + n, cur)
  {
    var s := Backslashes(n) + rest;
    assert s[0] == '\\';
    if n == 1 {
      assert s[1..] == rest;
    } else {
      assert s[1..] == Backslashes(n - 1) + rest;
      SkipBackslashes(n - 1, rest, true, quoted, bs + 1, cur);
    }
  }

  /** Reading a body inside quotes leaves its trailing backslashes pending. */
  lemma {:induction false} SplitBody(s: Wide, bs: nat, tail: Wide, cur: Wide) returns (cur': Wide)
    ensures Split(Body(s, bs) + tail, true, true, bs, cur) == Split(tail, true, true, Trailing(s, bs), cur')
    ensures cur' + Backslashes(Trailing(s, bs)) == cur + Backslashes(bs) + s
    decreases |s|
  {
    var line := Body(s, bs) + tail;
    if s == "" {
      assert line == tail;
      cur' := cur;
    } else if s[0] == '\\' {
      assert line[1..] == Body(s[1..], bs + 1) + tail;
      cur' := SplitBody(s[1..], bs + 1, tail, cur);
      assert cur + Backslashes(bs + 1) + s[1..] == cur + Backslashes(bs) + s;
    } else if s[0] == '"' {
      var quote := "\"" + (Body(s[1..], 0) + tail);
      assert line == Backslashes(bs + 1) + quote;
      SkipBackslashes(bs + 1, quote, true, true, bs, cur);
      assert quote[1..] == Body(s[1..], 0) + tail;
      assert (bs + (bs + 1)) / 2 == bs;
      cur' := SplitBody(s[1..], 0, tail, cur + Backslashes(bs) + "\"");
      assert cur + Backslashes(bs) + "\"" + Backslashes(0) + s[1..] == cur + Backslashes(bs) + s;
    } else {
      assert line[1..] == Body(s[1..], 0) + tail;
      cur' := SplitBody(s[1..], 0, tail, cur + Backslashes(bs) + [s[0]]);
      assert cur + Backslashes(bs) + [s[0]] + Backslashes(0) + s[1..] == cur + Backslashes(bs) + s;
    }
  }

  /** Reading an escaped text inside quotes, up to the closing quote, yields the text. */
  lemma SplitEscaped(s: Wide, rest: Wide)
    ensures Split(Escaped(s, 0) + "\"" + rest, true, true, 0, "") == Split(rest, true, false, 0, s)
  {
    var t, close := Trailing(s, 0), "\"" + rest;
    EscapedIsBody(s, 0);
    assert Escaped(s, 0) + "\"" + rest == Body(s, 0) + (Backslashes(t) + close);
    var cur := SplitBody(s, 0, Backslashes(t) + close, "");
    assert cur + Backslashes(t) == s;
    if t > 0 {
      SkipBackslashes(t, close, true, true, t, cur);
    } else {
      assert Backslashes(t) + close == close;
    }
    assert close[1..] == rest;
    assert (t + t) / 2 == t;
  }

  lemma SplitQuoted(s: Wide, rest: Wide)
    ensures Arguments(Quoted(s) + rest) == Split(rest, true, false, 0, s)
  {
    var line := Quoted(s) + rest;
    assert line[0] == '"';
    assert line[1..] == Escaped(s, 0) + "\"" + rest;
    assert "" + Backslashes(0) == "";
    SplitEscaped(s, rest);
  }

  /** The command line of launchRunscript splits into exactly user and password. */
  lemma CommandLineRoundTrip(user: Wide, pass: Wide)
    ensures Arguments(Quoted(user) + " " + Quoted(pass)) == [user, pass]
    ensures Arguments(Quoted(user)) == [user]
  {
    var rest := " " + Quoted(pass);
    assert Quoted(user) + " " + Quoted(pass) == Quoted(user) + rest;
    SplitQuoted(user, rest);
    assert rest[1..] == Quoted(pass);
    SplitQuoted(pass, "");
    assert Quoted(pass) + "" == Quoted(pass);
    assert user + Backslashes(0) == user && pass + Backslashes(0) == pass;
    SplitQuoted(user, "");
    assert Quoted(user) + "" == Quoted(user);
  }

  // ----- The C function -----

  function Min(a: int, b: int): int {
    if a < b then a else b
  }

  /** What a call leaves in the buffer when it has `cap` characters of room. */
  function Clipped(s: Wide, cap: nat): Wide {
    Quoted(s)[..Min(cap, |Quoted(s)|)]
  }

  lemma ClippedIsBody(s: Wide, cap: nat)
    requires 1 + |Body(s, 0)| <= cap < |Quoted(s)|
    ensures Clipped(s, cap) == "\"" + Body(s, 0) + Backslashes(cap - 1 - |Body(s, 0)|)
  {
    EscapedIsBody(s, 0);
    assert Quoted(s) == "\"" + Body(s, 0) + (Backslashes(Trailing(s, 0)) + "\"");
  }

  /** A clipped argument still reads back exactly when nothing but the closing
      quote and all the doubled backslashes are missing. */
  lemma ClippedRoundTrip(s: Wide, cap: nat)
    requires 1 + |Body(s, 0)| <= cap
    ensures Arguments(Clipped(s, cap)) == [s] <==> cap == 1 + |Body(s, 0)| || |Quoted(s)| <= cap
  {
    if |Quoted(s)| <= cap {
      assert Clipped(s, cap) == Quoted(s);
      CommandLineRoundTrip(s, s);
    } else {
      var extra := cap - 1 - |Body(s, 0)|;
      ClippedIsBody(s, cap);
      var line := Clipped(s, cap);
      assert line[1..] == Body(s, 0) + Backslashes(extra);
      var t := Trailing(s, 0);
      var cur := SplitBody(s, 0, Backslashes(extra), "");
      if extra > 0 {
        assert Backslashes(extra) == Backslashes(extra) + "";
        SkipBackslashes(extra, "", true, true, t, cur);
      }
      assert "" + Backslashes(0) == "";
      assert cur + Backslashes(t + extra) == (cur + Backslashes(t)) + Backslashes(extra) == s + Backslashes(extra);
      assert Arguments(line) == [s + Backslashes(extra)];
      assert [s + Backslashes(extra)] == [s] <==> s + Backslashes(extra) == s;
      assert s + Backslashes(extra) == s <==> extra == 0;
    }
  }

  /** One `*out++ = c`. Nothing before `start` or from `end` on changes. */
  method Put(buf: array<char>, ghost start: nat, out: nat, ghost end: nat, c: char)
    requires start <= out < end <= buf.Length
    modifies buf
    ensures buf[start..out + 1] == old(buf[start..out]) + [c]
    ensures buf[..start] == old(buf[..start]) && buf[end..] == old(buf[end..])
  {
    buf[out] := c;
  }

  /** The inner loop: copies a run of backslashes and counts them. */
  method CopyRun(input: Wide, from: nat, buf: array<char>, ghost start: nat, first: nat, limit: nat, ghost end: nat)
    returns (i: nat, out: nat, bs: nat)
    requires from <= |input| && start <= first <= limit <= end <= buf.Length
    requires |Body(input[from..], 0)| <= limit - first
    modifies buf
    ensures from <= i <= |input| && first <= out <= limit
    ensures i < |input| ==> input[i] != '\\'
    ensures buf[start..out] + Body(input[i..], bs) == old(buf[start..first]) + Body(input[from..], 0)
    ensures Trailing(input[i..], bs) == Trailing(input[from..], 0)
    ensures buf[..start] == old(buf[..start]) && buf[end..] == old(buf[end..])
  {
    i, out, bs := from, first, 0;
    while i < |input| && input[i] == '\\' && out < limit
      invariant from <= i <= |input| && first <= out <= limit
      invariant buf[start..out] + Body(input[i..], bs) == old(buf[start..first]) + Body(input[from..], 0)
      invariant Trailing(input[i..], bs) == Trailing(input[from..], 0)
      invariant buf[..start] == old(buf[..start]) && buf[end..] == old(buf[end..])
      decreases |input| - i
    {
      ghost var was, rest := buf[start..out], input[i..];
      assert rest[1..] == input[i + 1..];
      bs := bs + 1;
      Put(buf, start, out, end, input[i]);
      out := out + 1;
      i := i + 1;
      assert was + ("\\" + Body(rest[1..], bs)) == (was + "\\") + Body(rest[1..], bs);
    }
    assert |buf[start..out] + Body(input[i..], bs)| == |old(buf[start..first]) + Body(input[from..], 0)|;
  }

  /** The doubling loop: up to `n` more backslashes, as far as `limit` allows. */
  method PutBackslashes(buf: array<char>, ghost start: nat, first: nat, limit: nat, ghost end: nat, n: nat) returns (out: nat)
    requires start <= first <= limit <= end <= buf.Length
    modifies buf
    ensures out == first + Min(n, limit - first)
    ensures buf[start..out] == old(buf[start..first]) + Backslashes(out - first)
    ensures buf[..start] == old(buf[..start]) && buf[end..] == old(buf[end..])
  {
    var bs := n;
    out := first;
    while bs > 0 && out < limit
      invariant first <= out <= limit && out - first == n - bs
      invariant buf[start..out] == old(buf[start..first]) + Backslashes(out - first)
      invariant buf[..start] == old(buf[..start]) && buf[end..] == old(buf[end..])
    {
      Put(buf, start, out, end, '\\');
      out := out + 1;
      bs := bs - 1;
    }
  }

  function EscapedChar(c: char): Wide {
    if c == '"' then "\\\"" else [c]
  }

  /** The two writes that end a pass: the escape of a quote, then the character. */
  method PutChar(c: char, buf: array<char>, ghost start: nat, first: nat, limit: nat, ghost end: nat)
    returns (out: nat, taken: bool)
    requires start <= first <= limit <= end <= buf.Length
    requires first + |EscapedChar(c)| <= limit
    modifies buf
    ensures out == first + |EscapedChar(c)| && taken
    ensures buf[start..out] == old(buf[start..first]) + EscapedChar(c)
    ensures buf[..start] == old(buf[..start]) && buf[end..] == old(buf[end..])
  {
    out, taken := first, false;
    if c == '"' && out < limit {
      Put(buf, start, out, end, '\\');
      out := out + 1;
    }
    if out < limit {
      Put(buf, start, out, end, c);
      out := out + 1;
      taken := true;
    }
  }

  lemma PassText(run: Wide, rest: Wide, bs: nat)
    requires rest != "" && rest[0] != '\\'
    ensures var doubled := if rest[0] == '"' then Backslashes(bs) else "";
            run + Body(rest, bs) == run + doubled + EscapedChar(rest[0]) + Body(rest[1..], 0)
  {
    if rest[0] != '"' {
      assert run + "" == run;
    }
  }

  /** One pass through the outer loop; `done` when it hits the break. */
  method EscapePass(input: Wide, from: nat, buf: array<char>, ghost start: nat, first: nat, limit: nat, ghost end: nat)
    returns (i: nat, out: nat, done: bool)
    requires from < |input| && start <= first <= limit <= end <= buf.Length
    requires |Body(input[from..], 0)| <= limit - first
    modifies buf
    ensures first <= out <= limit && from <= i <= |input|
    ensures !done ==> from < i && Trailing(input[i..], 0) == Trailing(input[from..], 0)
    ensures !done ==> buf[start..out] + Body(input[i..], 0) == old(buf[start..first]) + Body(input[from..], 0)
    ensures done ==> buf[start..out] == old(buf[start..first]) + Body(input[from..], 0)
                       + Backslashes(Min(Trailing(input[from..], 0), limit - first - |Body(input[from..], 0)|))
    ensures buf[..start] == old(buf[..start]) && buf[end..] == old(buf[end..])
  {
    ghost var body := buf[start..first] + Body(input[from..], 0);
    done := false;
    var bs;
    i, out, bs := CopyRun(input, from, buf, start, first, limit, end);
    ghost var run, rest := buf[start..out], input[i..];
    assert |run + Body(rest, bs)| == |body|;
    if i == |input| || input[i] == '"' {
      out := PutBackslashes(buf, start, out, limit, end, bs);
      if i == |input| {
        assert run + Body(rest, bs) == run;
        done := true;
        return;
      }
    }
    assert rest[1..] == input[i + 1..];
    PassText(run, rest, bs);
    assert buf[start..out] == run + if rest[0] == '"' then Backslashes(bs) else "";
    var taken;
    out, taken := PutChar(input[i], buf, start, out, limit, end);
    if taken {
      i := i + 1;
    }
  }

  /** escapeShellArg on a buffer; `start` and `end` are offsets into it. The room
      asked for is exactly what the loop needs to end at all, see LoopEnds. */
  method EscapeShellArg(input: Wide, buf: array<char>, start: nat, end: nat) returns (out: nat)
    requires start <= end <= buf.Length
    requires start < end - 2 ==> 1 + |Body(input, 0)| <= end - 2 - start
    modifies buf
    ensures start >= end - 2 ==> out == start && buf[..] == old(buf[..])
    ensures start < end - 2 ==>
              start <= out <= end - 2 && buf[start..out] == Clipped(input, end - 2 - start) && buf[out] == '\0'
    ensures buf[..start] == old(buf[..start]) && buf[end..] == old(buf[end..])
  {
    var limit := end - 2;
    if start >= limit {
      return start;
    }
    Put(buf, start, start, end, '"');
    out := EscapeBody(input, buf, start, limit, end);
    Finish(input, buf[start..out], limit - start);
    out := CloseArg(buf, start, out, limit, end);
  }

  /** The closing quote, where there is room, and the NUL. */
  method CloseArg(buf: array<char>, ghost start: nat, last: nat, limit: nat, ghost end: nat) returns (out: nat)
    requires start <= last <= limit < end <= buf.Length
    modifies buf
    ensures last <= out <= limit && buf[out] == '\0'
    ensures buf[start..out] == old(buf[start..last]) + if last < limit then "\"" else ""
    ensures buf[..start] == old(buf[..start]) && buf[end..] == old(buf[end..])
  {
    out := last;
    if out < limit {
      Put(buf, start, out, end, '"');
      out := out + 1;
    }
    buf[out] := '\0';
  }

  /** The outer loop, started behind the opening quote. */
  method EscapeBody(input: Wide, buf: array<char>, start: nat, limit: nat, ghost end: nat) returns (out: nat)
    requires start < limit <= end <= buf.Length && buf[start] == '"' && 1 + |Body(input, 0)| <= limit - start
    modifies buf
    ensures start < out <= limit
    ensures buf[start..out] == "\"" + Body(input, 0) + Backslashes(Min(Trailing(input, 0), limit - start - 1 - |Body(input, 0)|))
    ensures buf[..start] == old(buf[..start]) && buf[end..] == old(buf[end..])
  {
    ghost var body := "\"" + Body(input, 0);
    out := start + 1;
    assert buf[start..out] == "\"";
    var i := 0;
    assert input[0..] == input;
    var done := false;
    while i < |input| && !done
      invariant 0 <= i <= |input| && start < out <= limit
      invariant !done ==> buf[start..out] + Body(input[i..], 0) == body
      invariant !done ==> Trailing(input[i..], 0) == Trailing(input, 0)
      invariant done ==> buf[start..out] == body + Backslashes(Min(Trailing(input, 0), limit - start - |body|))
      invariant buf[..start] == old(buf[..start]) && buf[end..] == old(buf[end..])
      decreases !done, |input| - i
    {
      assert |buf[start..out] + Body(input[i..], 0)| == |body|;
      i, out, done := EscapePass(input, i, buf, start, out, limit, end);
    }
    if !done {
      assert buf[start..out] + Body(input[i..], 0) == buf[start..out];
      assert body + Backslashes(0) == body;
    }
  }

  lemma Finish(input: Wide, text: Wide, cap: nat)
    requires 1 + |Body(input, 0)| <= cap
    requires text == "\"" + Body(input, 0) + Backslashes(Min(Trailing(input, 0), cap - 1 - |Body(input, 0)|))
    ensures Clipped(input, cap) == if |text| < cap then text + "\"" else text
  {
    EscapedIsBody(input, 0);
    if |text| == cap {
      ClippedIsBody(input, cap);
    } else {
      assert text + "\"" == Quoted(input);
    }
  }

  // ----- launchRunscript -----

  const BUFLEN: nat := 200

  /** Room of the first escapeShellArg call, `BUFLEN - 2` less its own two. */
  const ROOM: nat := BUFLEN - 4

  /** Room left for the password after the user and one space; negative when used up. */
  function PassRoom(user: Wide): int {
    ROOM - |Clipped(user, ROOM)| - 1
  }

  /** Both calls come back. */
  predicate CallsReturn(user: Wide, pass: Wide) {
    && 1 + |Body(user, 0)| <= ROOM
    && (PassRoom(user) > 0 ==> 1 + |Body(pass, 0)| <= PassRoom(user))
  }

  function Params(user: Wide, pass: Wide): Wide {
    Clipped(user, ROOM) + " " + if PassRoom(user) > 0 then Clipped(pass, PassRoom(user)) else ""
  }

  /** Enough room for both arguments in full. */
  predicate Roomy(user: Wide, pass: Wide) {
    |Quoted(user)| + 1 + |Quoted(pass)| <= ROOM
  }

  lemma RoomyParams(user: Wide, pass: Wide)
    requires Roomy(user, pass)
    ensures CallsReturn(user, pass)
    ensures Params(user, pass) == Quoted(user) + " " + Quoted(pass)
    ensures Arguments(Params(user, pass)) == [user, pass]
  {
    EscapedIsBody(user, 0);
    EscapedIsBody(pass, 0);
    assert Clipped(user, ROOM) == Quoted(user);
    assert Clipped(pass, PassRoom(user)) == Quoted(pass);
    CommandLineRoundTrip(user, pass);
  }

  /** Two arguments can be read from the parameters: the user fits in full, and the
      password fits in full or loses exactly its closing part. */
  predicate Readable(user: Wide, pass: Wide) {
    && |Quoted(user)| <= ROOM
    && (|Quoted(pass)| <= PassRoom(user) || PassRoom(user) == 1 + |Body(pass, 0)|)
  }

  /** When the command line that is launched splits into user and password, exactly. */
  lemma ParamsRoundTrip(user: Wide, pass: Wide)
    requires CallsReturn(user, pass)
    ensures Arguments(Params(user, pass)) == [user, pass] <==> Readable(user, pass)
  {
    if |Quoted(user)| <= ROOM {
      var room := PassRoom(user);
      var rest := if room > 0 then Clipped(pass, room) else "";
      FirstArgument(user, rest);
      if room > 0 {
        ClippedRoundTrip(pass, room);
      }
      assert [user] + Arguments(rest) == [user, pass] <==> Arguments(rest) == [pass] by {
        assert ([user] + Arguments(rest))[1..] == Arguments(rest) && [user, pass][1..] == [pass];
      }
    } else {
      ClippedUser(user);
    }
  }

  /** A user in full is the first argument, whatever follows the space. */
  lemma FirstArgument(user: Wide, rest: Wide)
    requires |Quoted(user)| <= ROOM
    ensures Clipped(user, ROOM) == Quoted(user)
    ensures Arguments(Clipped(user, ROOM) + " " + rest) == [user] + Arguments(rest)
  {
    var tail := " " + rest;
    assert Quoted(user) + " " + rest == Quoted(user) + tail;
    SplitQuoted(user, tail);
    assert tail[1..] == rest;
    assert user + Backslashes(0) == user;
  }

  /** A clipped user swallows the space, so there is only one argument. */
  lemma ClippedUser(user: Wide)
    requires 1 + |Body(user, 0)| <= ROOM < |Quoted(user)|
    ensures PassRoom(user) <= 0 && |Arguments(Clipped(user, ROOM) + " " + "")| == 1
  {
    var extra := ROOM - 1 - |Body(user, 0)|;
    ClippedIsBody(user, ROOM);
    var line := Clipped(user, ROOM) + " " + "";
    assert line[0] == '"' && line[1..] == Body(user, 0) + (Backslashes(extra) + " ");
    var t := Trailing(user, 0);
    var cur := SplitBody(user, 0, Backslashes(extra) + " ", "");
    assert "" + Backslashes(0) == "";
    if extra > 0 {
      SkipBackslashes(extra, " ", true, true, t, cur);
    } else {
      assert Backslashes(extra) + " " == " ";
    }
    assert " "[1..] == "";
  }

  method BuildParams(user: Wide, pass: Wide) returns (params: array<char>, len: nat)
    requires CallsReturn(user, pass)
    ensures params.Length == BUFLEN && len < BUFLEN && params[len] == '\0'
    ensures params[..len] == Params(user, pass)
    ensures Arguments(params[..len]) == [user, pass] <==> Readable(user, pass)
  {
    params := new char[BUFLEN](_ => '\0');
    var end := BUFLEN - 2;
    var ptr := EscapeShellArg(user, params, 0, end);
    ghost var first := params[..ptr];
    assert first == params[0..ptr] == Clipped(user, ROOM);
    params[ptr] := ' ';
    ptr := ptr + 1;
    assert params[..ptr] == first + " ";
    ghost var mid := ptr;
    ptr := EscapeShellArg(pass, params, ptr, end);
    assert params[..ptr] == params[..mid] + params[mid..ptr];
    len := ptr;
    params[ptr] := '\0';
    ParamsRoundTrip(user, pass);
  }

  // ----- When the loop of escapeShellArg ends -----

  /** Rest of the input and characters written so far. */
  datatype Loop = Running(rest: Wide, used: nat) | Ended

  function RunLength(s: Wide): (k: nat)
    ensures k <= |s| && (k < |s| ==> s[k] != '\\')
  {
    if s == "" || s[0] != '\\' then 0 else 1 + RunLength(s[1..])
  }

  /** One pass through the outer loop, for any amount of room. */
  function Pass(st: Loop, cap: nat): Loop
    requires st.Running? ==> st.used <= cap
  {
    if st.Ended? || st.rest == "" then Ended
    else
      var bs := Min(RunLength(st.rest), cap - st.used);
      var rest, used := st.rest[bs..], st.used + bs;
      if rest == "" then Ended
      else
        var doubled := if rest[0] == '"' then used + Min(bs, cap - used) else used;
        var escaped := if rest[0] == '"' && doubled < cap then doubled + 1 else doubled;
        if escaped < cap then Running(rest[1..], escaped + 1) else Running(rest, escaped)
  }

  ghost predicate EndsWithin(st: Loop, cap: nat, n: nat)
    requires st.Running? ==> st.used <= cap
    decreases n
  {
    if n == 0 then st.Ended? else EndsWithin(Pass(st, cap), cap, n - 1)
  }

  /** The loop ends after some number of passes. */
  ghost predicate Returns(s: Wide, cap: nat)
    requires cap > 0
  {
    exists n: nat :: EndsWithin(Running(s, 1), cap, n)
  }

  lemma {:induction false} RunOfBody(s: Wide, bs: nat)
    ensures var k := RunLength(s);
            |Body(s, bs)| == if k == |s| then k
                             else if s[k] == '"' then k + (bs + k) + 2 + |Body(s[k + 1..], 0)|
                             else k + 1 + |Body(s[k + 1..], 0)|
    decreases |s|
  {
    if s != "" && s[0] == '\\' {
      RunOfBody(s[1..], bs + 1);
      var k := RunLength(s);
      assert k < |s| ==> s[1..][k..] == s[k + 1..];
    }
  }

  lemma NonEmptyBody(s: Wide)
    requires s != ""
    ensures Body(s, 0) != ""
  {
  }

  lemma PassProgress(rest: Wide, used: nat, cap: nat)
    requires rest != "" && used <= cap
    ensures var p := Pass(Running(rest, used), cap);
            if used + |Body(rest, 0)| <= cap
            then p.Ended? || (|p.rest| < |rest| && p.used <= cap && p.used + |Body(p.rest, 0)| <= cap)
            else p.Running? && p.rest != "" && p.used <= cap < p.used + |Body(p.rest, 0)|
  {
    RunOfBody(rest, 0);
    var p := Pass(Running(rest, used), cap);
    if p.Running? && p.rest != "" {
      NonEmptyBody(p.rest);
    }
    var k := RunLength(rest);
    if k < |rest| {
      assert rest[k..][1..] == rest[k + 1..];
      assert rest[k..][0] == rest[k];
    }
    if cap - used < k {
      RunPrefix(rest, cap - used);
    }
  }

  lemma {:induction false} RunPrefix(s: Wide, j: nat)
    requires j < RunLength(s)
    ensures s[j] == '\\'
    decreases |s|
  {
    if j > 0 {
      RunPrefix(s[1..], j - 1);
    }
  }

  lemma {:induction false} EndsWhenItFits(rest: Wide, used: nat, cap: nat) returns (n: nat)
    requires used <= cap && used + |Body(rest, 0)| <= cap
    ensures EndsWithin(Running(rest, used), cap, n)
    decreases |rest|
  {
    if rest == "" {
      assert EndsWithin(Ended, cap, 0);
      n := 1;
    } else {
      PassProgress(rest, used, cap);
      var p := Pass(Running(rest, used), cap);
      if p.Ended? {
        assert EndsWithin(Ended, cap, 0);
        n := 1;
      } else {
        n := EndsWhenItFits(p.rest, p.used, cap);
        n := n + 1;
      }
    }
  }

  lemma {:induction false} SpinsWhenFull(rest: Wide, used: nat, cap: nat, n: nat)
    requires rest != "" && used <= cap < used + |Body(rest, 0)|
    ensures !EndsWithin(Running(rest, used), cap, n)
    decreases n
  {
    if n > 0 {
      PassProgress(rest, used, cap);
      var p := Pass(Running(rest, used), cap);
      SpinsWhenFull(p.rest, p.used, cap, n - 1);
    }
  }

  /** escapeShellArg returns exactly when the opening quote and the body fit. */
  lemma LoopEnds(s: Wide, cap: nat)
    requires cap > 0
    ensures Returns(s, cap) <==> 1 + |Body(s, 0)| <= cap
  {
    if 1 + |Body(s, 0)| <= cap {
      var n := EndsWhenItFits(s, 1, cap);
      assert EndsWithin(Running(s, 1), cap, n);
    } else {
      forall n: nat
        ensures !EndsWithin(Running(s, 1), cap, n)
      {
        SpinsWhenFull(s, 1, cap, n);
      }
    }
  }

  lemma {:induction false} PlainBody(s: Wide)
    requires forall i :: 0 <= i < |s| ==> s[i] != '\\' && s[i] != '"'
    ensures |Body(s, 0)| == |s|
    decreases |s|
  {
    if s != "" {
      PlainBody(s[1..]);
    }
  }

  /** launchRunscript gets past its calls exactly when each loop that is entered ends. */
  lemma CallsReturnWhen(user: Wide, pass: Wide)
    ensures CallsReturn(user, pass) <==> Returns(user, ROOM) && (PassRoom(user) > 0 ==> Returns(pass, PassRoom(user)))
  {
    LoopEnds(user, ROOM);
    if PassRoom(user) > 0 {
      LoopEnds(pass, PassRoom(user));
    }
  }

  /** A password of plain characters that is too long for the room left spins forever. */
  lemma LongPasswordSpins(user: Wide, pass: Wide)
    requires forall i :: 0 <= i < |pass| ==> pass[i] != '\\' && pass[i] != '"'
    requires 0 < PassRoom(user) <= |pass|
    ensures !CallsReturn(user, pass)
  {
    PlainBody(pass);
  }

  lemma OneLetterUser(c: char)
    requires c != '\\' && c != '"'
    ensures CallsReturn([c], "") && PassRoom([c]) == ROOM - 4
  {
    assert [c][1..] == "";
    assert Body([c], 0) == [c] + Body("", 0) && Escaped([c], 0) == [c] + Escaped("", 0);
  }
}
