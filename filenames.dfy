/** Stored-file naming: the button-name sanitisers of the Express helper
    `uploadFileToStorage` (Backend/utils/fileUtils.js) and of the Flask
    `save_file_to_disk` (Backend/main.py), the extension taken from the
    uploaded name, the storage folders, the public URL, the MIME table and
    the result of a storage delete. */
module FileUtils {

  predicate AsciiAlnum(c: char) {
    ('a' <= c <= 'z') || ('A' <= c <= 'Z') || ('0' <= c <= '9')
  }

  /** What may appear in a sanitised name. */
  predicate SafeChar(c: char) {
    AsciiAlnum(c) || c == '-' || c == '_'
  }

  /** ECMAScript WhiteSpace and LineTerminator: the `\s` class of a regular
      expression, and what `String.prototype.trim` removes. Tab through
      carriage return, space, no-break space, ogham space mark, en quad
      through hair space, line and paragraph separators, narrow no-break
      space, medium mathematical space, ideographic space and the byte
      order mark. */
  predicate JsSpace(c: char) {
    || ('\t' <= c <= '\r') || c == ' ' || c == '\U{00A0}' || c == '\U{1680}'
    || ('\U{2000}' <= c <= '\U{200A}') || c == '\U{2028}' || c == '\U{2029}' || c == '\U{202F}'
    || c == '\U{205F}' || c == '\U{3000}' || c == '\U{FEFF}'
  }

  /** No safe character is whitespace. */
  lemma SafeIsNotSpace(c: char)
    requires SafeChar(c)
    ensures !JsSpace(c)
  {
  }

  predicate NoJsSpace(s: string) {
    forall i :: 0 <= i < |s| ==> !JsSpace(s[i])
  }

  predicate AllJsSpace(s: string) {
    forall i :: 0 <= i < |s| ==> JsSpace(s[i])
  }

  predicate SafeOrSpace(s: string) {
    forall i :: 0 <= i < |s| ==> SafeChar(s[i]) || JsSpace(s[i])
  }

  predicate AllSafe(s: string) {
    forall i :: 0 <= i < |s| ==> SafeChar(s[i])
  }

  // ---------------------------------------------------------------------
  // Express sanitiser (Backend/utils/fileUtils.js:18): unsafe characters
  // become `_`, the ends are trimmed, each run of white space becomes `_`
  // ---------------------------------------------------------------------

  /** One character through the first `replace`. The pattern has no `u`
      flag, so it matches UTF-16 code units: a character outside the Basic
      Multilingual Plane is two code units and becomes two underscores. */
  function JsReplaceChar(c: char): (r: string)
    ensures 1 <= |r| <= 2
    ensures forall i :: 0 <= i < |r| ==> SafeChar(r[i]) || JsSpace(r[i])
    ensures JsSpace(c) || SafeChar(c) <==> r == [c]
    ensures !JsSpace(c) ==> NoJsSpace(r)
  {
    if AsciiAlnum(c) || JsSpace(c) || c == '-' || c == '_' then [c]
    else if c as int >= 0x1_0000 then "__"
    else "_"
  }

  function JsReplace(s: string): (r: string)
    ensures SafeOrSpace(r)
    decreases |s|
  {
    if s == [] then []
    else
      var h, t := JsReplaceChar(s[0]), JsReplace(s[1..]);
      assert forall i :: 0 <= i < |h + t| ==> (h + t)[i] == (if i < |h| then h[i] else t[i - |h|]);
      h + t
  }

  lemma {:induction false} JsReplaceAppend(a: string, b: string)
    ensures JsReplace(a + b) == JsReplace(a) + JsReplace(b)
    decreases |a|
  {
    if a != [] {
      assert (a + b)[0] == a[0];
      assert (a + b)[1..] == a[1..] + b;
      JsReplaceAppend(a[1..], b);
    } else {
      assert a + b == b;
    }
  }

  /** Characters that are already safe, and whitespace, pass unchanged. */
  lemma {:induction false} JsReplaceKeeps(s: string)
    requires SafeOrSpace(s)
    ensures JsReplace(s) == s
    decreases |s|
  {
    if s != [] {
      JsReplaceKeeps(s[1..]);
    }
  }

  lemma {:induction false} JsReplaceNoSpace(s: string)
    requires NoJsSpace(s)
    ensures NoJsSpace(JsReplace(s))
    decreases |s|
  {
    if s != [] {
      JsReplaceNoSpace(s[1..]);
    }
  }

  function TrimStart(s: string): (r: string)
    ensures |r| <= |s| && r == s[|s| - |r|..]
    ensures AllJsSpace(s[..|s| - |r|])
    ensures r == [] || !JsSpace(r[0])
    decreases |s|
  {
    if s != [] && JsSpace(s[0]) then TrimStart(s[1..]) else s
  }

  function TrimEnd(s: string): (r: string)
    ensures |r| <= |s| && r == s[..|r|]
    ensures AllJsSpace(s[|r|..])
    ensures r == [] || !JsSpace(r[|r| - 1])
    decreases |s|
  {
    if s != [] && JsSpace(s[|s| - 1]) then TrimEnd(s[..|s| - 1]) else s
  }

  /** `String.prototype.trim`: the result is the part of `s` left after
      dropping whitespace at both ends, and it neither starts nor ends with
      whitespace. */
  function Trim(s: string): (r: string)
    ensures r == [] || (!JsSpace(r[0]) && !JsSpace(r[|r| - 1]))
  {
    TrimEnd(TrimStart(s))
  }

  /** What `trim` keeps is a slice of its input with only whitespace
      outside it. */
  lemma TrimIsSlice(s: string)
    ensures exists i, j :: 0 <= i <= j <= |s| && Trim(s) == s[i..j]
                           && AllJsSpace(s[..i]) && AllJsSpace(s[j..])
  {
    var t := TrimStart(s);
    var r := TrimEnd(t);
    var i := |s| - |t|;
    assert r == s[i..i + |r|];
    assert s[i + |r|..] == t[|r|..];
  }

  lemma {:induction false} TrimStartSkip(lead: string, x: string)
    requires AllJsSpace(lead)
    ensures TrimStart(lead + x) == TrimStart(x)
    decreases |lead|
  {
    if lead != [] {
      assert (lead + x)[0] == lead[0];
      assert (lead + x)[1..] == lead[1..] + x;
      TrimStartSkip(lead[1..], x);
    } else {
      assert lead + x == x;
    }
  }

  lemma {:induction false} TrimEndSkip(x: string, trail: string)
    requires AllJsSpace(trail)
    ensures TrimEnd(x + trail) == TrimEnd(x)
    decreases |trail|
  {
    if trail != [] {
      var t' := trail[..|trail| - 1];
      assert (x + trail)[|x + trail| - 1] == trail[|trail| - 1];
      assert (x + trail)[..|x + trail| - 1] == x + t';
      TrimEndSkip(x, t');
    } else {
      assert x + trail == x;
    }
  }

  lemma {:induction false} TrimStartKeepsTail(x: string, y: string)
    requires !AllJsSpace(x)
    ensures TrimStart(x + y) == TrimStart(x) + y
    decreases |x|
  {
    assert x != [];
    if JsSpace(x[0]) {
      assert (x + y)[1..] == x[1..] + y;
      assert !AllJsSpace(x[1..]) by {
        var k :| 0 <= k < |x| && !JsSpace(x[k]);
        assert x[1..][k - 1] == x[k];
      }
      TrimStartKeepsTail(x[1..], y);
    }
  }

  lemma {:induction false} TrimEndKeepsHead(x: string, y: string)
    requires !AllJsSpace(y)
    ensures TrimEnd(x + y) == x + TrimEnd(y)
    decreases |y|
  {
    assert y != [];
    if JsSpace(y[|y| - 1]) {
      var y' := y[..|y| - 1];
      assert (x + y)[..|x + y| - 1] == x + y';
      assert !AllJsSpace(y') by {
        var k :| 0 <= k < |y| && !JsSpace(y[k]);
        assert y'[k] == y[k];
      }
      TrimEndKeepsHead(x, y');
    } else {
      assert (x + y)[|x + y| - 1] == y[|y| - 1];
    }
  }

  lemma AllSpaceConcat(x: string, y: string)
    requires AllJsSpace(x) && AllJsSpace(y)
    ensures AllJsSpace(x + y)
  {
    assert forall k :: 0 <= k < |x + y| ==> (x + y)[k] == (if k < |x| then x[k] else y[k - |x|]);
  }

  lemma {:induction false} TrimStartAllSpace(s: string)
    requires AllJsSpace(s)
    ensures TrimStart(s) == []
    decreases |s|
  {
    if s != [] {
      TrimStartAllSpace(s[1..]);
    }
  }

  lemma TrimAllSpace(x: string, trail: string)
    requires AllJsSpace(x) && AllJsSpace(trail)
    ensures TrimStart(x + trail) == TrimStart(x) == []
  {
    AllSpaceConcat(x, trail);
    TrimStartAllSpace(x + trail);
    TrimStartAllSpace(x);
  }

  lemma TrimSolid(x: string, trail: string)
    requires !AllJsSpace(x) && AllJsSpace(trail)
    ensures TrimEnd(TrimStart(x + trail)) == TrimEnd(TrimStart(x))
  {
    TrimStartKeepsTail(x, trail);
    TrimEndSkip(TrimStart(x), trail);
  }

  /** Trimming ignores any whitespace added at either end. */
  lemma TrimIgnoresEnds(lead: string, x: string, trail: string)
    requires AllJsSpace(lead) && AllJsSpace(trail)
    ensures Trim(lead + x + trail) == Trim(x)
  {
    var m := x + trail;
    assert lead + x + trail == lead + m;
    TrimStartSkip(lead, m);
    if AllJsSpace(x) {
      TrimAllSpace(x, trail);
    } else {
      TrimSolid(x, trail);
    }
  }

  function DropSpaces(s: string): (r: string)
    ensures |r| <= |s| && r == s[|s| - |r|..]
    ensures r == [] || !JsSpace(r[0])
    decreases |s|
  {
    if s != [] && JsSpace(s[0]) then DropSpaces(s[1..]) else s
  }

  lemma {:induction false} DropSpacesSkip(ws: string, y: string)
    requires AllJsSpace(ws)
    requires y == [] || !JsSpace(y[0])
    ensures DropSpaces(ws + y) == y
    decreases |ws|
  {
    if ws != [] {
      assert (ws + y)[1..] == ws[1..] + y;
      DropSpacesSkip(ws[1..], y);
    } else {
      assert ws + y == y;
    }
  }

  /** `replace(/\s+/g, '_')`: each maximal run of whitespace becomes one
      underscore; every other character is kept. */
  function Collapse(s: string): (r: string)
    ensures NoJsSpace(r)
    decreases |s|
  {
    if s == [] then []
    else if JsSpace(s[0]) then
      SafeIsNotSpace('_');
      "_" + Collapse(DropSpaces(s[1..]))
    else
      [s[0]] + Collapse(s[1..])
  }

  lemma {:induction false} CollapsePlain(x: string)
    requires NoJsSpace(x)
    ensures Collapse(x) == x
    decreases |x|
  {
    if x != [] {
      CollapsePlain(x[1..]);
    }
  }

  /** Collapsing a string of safe characters and whitespace leaves only
      safe characters. */
  lemma {:induction false} CollapseSafe(s: string)
    requires SafeOrSpace(s)
    ensures AllSafe(Collapse(s))
    decreases |s|
  {
    if s != [] {
      if JsSpace(s[0]) {
        var t := DropSpaces(s[1..]);
        assert forall k :: 0 <= k < |t| ==> t[k] == s[|s| - |t| + k];
        CollapseSafe(t);
      } else {
        CollapseSafe(s[1..]);
      }
    }
  }

  /** A run of whitespace after a space-free prefix becomes exactly one
      underscore. */
  lemma {:induction false} CollapseRun(x: string, ws: string, y: string)
    requires NoJsSpace(x)
    requires ws != [] && AllJsSpace(ws)
    requires y == [] || !JsSpace(y[0])
    ensures Collapse(x + ws + y) == x + "_" + Collapse(y)
    decreases |x|
  {
    if x == [] {
      assert x + ws + y == ws + y;
      assert (ws + y)[1..] == ws[1..] + y;
      DropSpacesSkip(ws[1..], y);
    } else {
      assert (x + ws + y)[1..] == x[1..] + ws + y;
      CollapseRun(x[1..], ws, y);
    }
  }

  /** The Express sanitised button name. */
  function JsSanitise(name: string): string {
    Collapse(Trim(JsReplace(name)))
  }

  lemma SafeOrSpaceSlice(s: string, i: int, j: int)
    requires 0 <= i <= j <= |s| && SafeOrSpace(s)
    ensures SafeOrSpace(s[i..j])
  {
    assert forall k :: 0 <= k < j - i ==> s[i..j][k] == s[i + k];
  }

  /** The sanitised name holds only ASCII letters, digits, '-' and '_'. */
  lemma JsSanitiseSafe(name: string)
    ensures AllSafe(JsSanitise(name))
  {
    var a := JsReplace(name);
    var t := TrimStart(a);
    SafeOrSpaceSlice(a, |a| - |t|, |a|);
    var u := TrimEnd(t);
    SafeOrSpaceSlice(t, 0, |u|);
    assert Trim(a) == u;
    CollapseSafe(u);
  }

  /** A name made only of safe characters is kept as it is. */
  lemma JsSanitiseKeepsSafe(name: string)
    requires AllSafe(name)
    ensures JsSanitise(name) == name
  {
    JsReplaceKeeps(name);
    forall k | 0 <= k < |name| ensures !JsSpace(name[k]) {
      SafeIsNotSpace(name[k]);
    }
    assert TrimStart(name) == name;
    assert TrimEnd(name) == name;
    CollapsePlain(name);
  }

  /** Whitespace at either end of the button name is dropped. */
  lemma JsSanitiseIgnoresEnds(lead: string, name: string, trail: string)
    requires AllJsSpace(lead) && AllJsSpace(trail)
    ensures JsSanitise(lead + name + trail) == JsSanitise(name)
  {
    JsReplaceAppend(lead + name, trail);
    JsReplaceAppend(lead, name);
    JsReplaceKeeps(lead);
    JsReplaceKeeps(trail);
    TrimIgnoresEnds(lead, JsReplace(name), trail);
  }

  lemma ReplaceRun(word: string, ws: string, rest: string)
    requires word != [] && NoJsSpace(word)
    requires AllJsSpace(ws)
    requires rest != [] && !JsSpace(rest[0])
    ensures JsReplace(word + ws + rest) == JsReplace(word) + ws + JsReplace(rest)
    ensures JsReplace(word) != [] && NoJsSpace(JsReplace(word))
    ensures JsReplace(rest) != [] && !JsSpace(JsReplace(rest)[0])
  {
    JsReplaceAppend(word + ws, rest);
    JsReplaceAppend(word, ws);
    JsReplaceKeeps(ws);
    JsReplaceNoSpace(word);
    assert JsReplace(word) == JsReplaceChar(word[0]) + JsReplace(word[1..]);
    var h := JsReplaceChar(rest[0]);
    assert JsReplace(rest) == h + JsReplace(rest[1..]);
    assert JsReplace(rest)[0] == h[0];
  }

  lemma TrimRun(x: string, r: string)
    requires x != [] && !JsSpace(x[0])
    requires r != [] && !JsSpace(r[0])
    ensures Trim(x + r) == x + TrimEnd(r)
    ensures Trim(r) == TrimEnd(r)
    ensures TrimEnd(r) != [] && !JsSpace(TrimEnd(r)[0])
  {
    assert (x + r)[0] == x[0];
    assert TrimStart(x + r) == x + r;
    assert TrimStart(r) == r;
    assert !AllJsSpace(r);
    TrimEndKeepsHead(x, r);
  }

  /** Each interior whitespace run becomes exactly one underscore: a
      space-free word, a run, and the rest of the name sanitise to the
      word, one '_', and the sanitised rest. */
  lemma JsSanitiseRun(word: string, ws: string, rest: string)
    requires word != [] && NoJsSpace(word)
    requires ws != [] && AllJsSpace(ws)
    requires rest != [] && !JsSpace(rest[0])
    ensures JsSanitise(word + ws + rest) == JsReplace(word) + "_" + JsSanitise(rest)
  {
    var w := JsReplace(word);
    var r := JsReplace(rest);
    ReplaceRun(word, ws, rest);
    assert (w + ws)[0] == w[0];
    TrimRun(w + ws, r);
    assert w + ws + r == (w + ws) + r;
    var tr := TrimEnd(r);
    assert (w + ws) + tr == w + ws + tr;
    CollapseRun(w, ws, tr);
    CollapsePlain(w);
  }

  // ---------------------------------------------------------------------
  // Flask sanitiser (Backend/main.py:51): characters other than alnum,
  // space, `-` and `_` become `_`, the ends are stripped, spaces become `_`
  // ---------------------------------------------------------------------

  /** Python's `str.isspace` set, which `str.strip()` removes: tab through
      carriage return, the four information separators, space, next line,
      no-break space, ogham space mark, en quad through hair space, line and
      paragraph separators, narrow no-break space, medium mathematical space
      and ideographic space. */
  predicate PySpace(c: char) {
    || ('\t' <= c <= '\r') || ('\U{001C}' <= c <= '\U{001F}') || c == ' ' || c == '\U{0085}'
    || c == '\U{00A0}' || c == '\U{1680}' || ('\U{2000}' <= c <= '\U{200A}') || c == '\U{2028}'
    || c == '\U{2029}' || c == '\U{202F}' || c == '\U{205F}' || c == '\U{3000}'
  }

  /** What the generator keeps: `str.isalnum` (Unicode-aware, passed in
      as `alnum`), space, '-' and '_'. */
  predicate PyKept(c: char, alnum: char -> bool) {
    alnum(c) || c == ' ' || c == '-' || c == '_'
  }

  /** The generator: Python iterates code points, so every rejected
      character becomes a single underscore. */
  function PyReplace(s: string, alnum: char -> bool): (r: string)
    ensures |r| == |s|
    ensures forall i :: 0 <= i < |s| ==> r[i] == (if PyKept(s[i], alnum) then s[i] else '_')
    decreases |s|
  {
    if s == [] then []
    else [if PyKept(s[0], alnum) then s[0] else '_'] + PyReplace(s[1..], alnum)
  }

  function PyStripStart(s: string): (r: string)
    ensures |r| <= |s| && r == s[|s| - |r|..]
    ensures r == [] || !PySpace(r[0])
    decreases |s|
  {
    if s != [] && PySpace(s[0]) then PyStripStart(s[1..]) else s
  }

  function PyStripEnd(s: string): (r: string)
    ensures |r| <= |s| && r == s[..|r|]
    ensures r == [] || !PySpace(r[|r| - 1])
    decreases |s|
  {
    if s != [] && PySpace(s[|s| - 1]) then PyStripEnd(s[..|s| - 1]) else s
  }

  /** `str.strip()`. */
  function PyStrip(s: string): (r: string)
    ensures exists i, j :: 0 <= i <= j <= |s| && r == s[i..j]
    ensures r == [] || (!PySpace(r[0]) && !PySpace(r[|r| - 1]))
  {
    var t := PyStripStart(s);
    var r := PyStripEnd(t);
    var i := |s| - |t|;
    assert r == s[i..i + |r|];
    r
  }

  /** `str.replace(' ', '_')`: one underscore per space, so a run of n
      spaces becomes n underscores. */
  function SpacesToUnderscores(s: string): (r: string)
    ensures |r| == |s|
    ensures forall i :: 0 <= i < |s| ==> r[i] == (if s[i] == ' ' then '_' else s[i])
    decreases |s|
  {
    if s == [] then [] else [if s[0] == ' ' then '_' else s[0]] + SpacesToUnderscores(s[1..])
  }

  /** The Flask sanitised button name. */
  function PySanitise(name: string, alnum: char -> bool): string {
    SpacesToUnderscores(PyStrip(PyReplace(name, alnum)))
  }

  predicate AllPyKept(s: string, alnum: char -> bool) {
    forall i :: 0 <= i < |s| ==> PyKept(s[i], alnum)
  }

  lemma PyKeptSlice(s: string, i: int, j: int, alnum: char -> bool)
    requires 0 <= i <= j <= |s| && AllPyKept(s, alnum)
    ensures AllPyKept(s[i..j], alnum)
  {
    assert forall k :: 0 <= k < j - i ==> s[i..j][k] == s[i + k];
  }

  /** The Flask sanitised name holds only alphanumerics, '-' and '_', and
      no space. */
  lemma PySanitiseSafe(name: string, alnum: char -> bool)
    ensures forall k :: 0 <= k < |PySanitise(name, alnum)| ==>
              PySanitise(name, alnum)[k] != ' ' && PyKept(PySanitise(name, alnum)[k], alnum)
  {
    var a := PyReplace(name, alnum);
    assert AllPyKept(a, alnum);
    var t := PyStripStart(a);
    PyKeptSlice(a, |a| - |t|, |a|, alnum);
    var u := PyStripEnd(t);
    PyKeptSlice(t, 0, |u|, alnum);
    assert PyStrip(a) == u;
  }

  /** When the name neither starts nor ends with whitespace, nothing is
      stripped and every character maps one for one: each space, so each
      space of an interior run, becomes its own underscore (Express, by
      contrast, turns a whole run into one underscore). */
  lemma PySanitiseOneForOne(name: string, alnum: char -> bool)
    requires name != [] && !PySpace(name[0]) && !PySpace(name[|name| - 1])
    ensures |PySanitise(name, alnum)| == |name|
    ensures forall i :: 0 <= i < |name| ==>
              PySanitise(name, alnum)[i] == (if name[i] == ' ' then '_'
                                             else if PyKept(name[i], alnum) then name[i] else '_')
  {
    var a := PyReplace(name, alnum);
    assert !PySpace('_');
    assert !PySpace(a[0]) && !PySpace(a[|a| - 1]);
    assert PyStripStart(a) == a;
    assert PyStripEnd(a) == a;
  }

  // ---------------------------------------------------------------------
  // Extensions
  // ---------------------------------------------------------------------

  /** Index of the last `c` in `s`, or -1. */
  function LastIndex(s: string, c: char): (r: int)
    ensures -1 <= r < |s|
    ensures r >= 0 ==> s[r] == c
    ensures forall i :: r < i < |s| ==> s[i] != c
    decreases |s|
  {
    if s == [] then -1 else if s[|s| - 1] == c then |s| - 1 else LastIndex(s[..|s| - 1], c)
  }

  function DropTrailingSlashes(s: string): (r: string)
    ensures |r| <= |s| && r == s[..|r|]
    ensures r == [] || r[|r| - 1] != '/'
    decreases |s|
  {
    if s != [] && s[|s| - 1] == '/' then DropTrailingSlashes(s[..|s| - 1]) else s
  }

  lemma NotInSuffix(s: string, i: int, c: char)
    requires 0 <= i <= |s|
    requires forall k :: i <= k < |s| ==> s[k] != c
    ensures c !in s[i..]
  {
    assert forall k :: 0 <= k < |s[i..]| ==> s[i..][k] == s[i + k];
  }

  /** Node's POSIX `path.extname`: trailing slashes are ignored; in the last
      path segment the extension runs from the last '.' to the end, unless
      there is no '.', the segment starts with its last '.', or the segment
      is "..". */
  function JsExtname(p: string): (r: string)
    ensures r == [] || (r[0] == '.' && '/' !in r && '.' !in r[1..])
  {
    var q := DropTrailingSlashes(p);
    var b := q[LastIndex(q, '/') + 1..];
    var d := LastIndex(b, '.');
    if d <= 0 || b == ".." then ""
    else
      NotInSuffix(q, LastIndex(q, '/') + 1, '/');
      NotInSuffix(b, d + 1, '.');
      assert b[d..][1..] == b[d + 1..];
      b[d..]
  }

  /** Python's `posixpath.splitext(p)[1]`: from the last '.' after the last
      '/', provided some character between that '/' and the '.' is not a
      '.' (leading dots of a name do not start an extension). */
  function PyExt(p: string): (r: string)
    ensures r == [] || (r[0] == '.' && '/' !in r && '.' !in r[1..])
  {
    var sep := LastIndex(p, '/');
    var d := LastIndex(p, '.');
    if d > sep && exists k :: sep < k < d && p[k] != '.' then
      NotInSuffix(p, d, '/');
      NotInSuffix(p, d + 1, '.');
      assert p[d..][1..] == p[d + 1..];
      p[d..]
    else ""
  }

  /** In `stem.e` with no '/' anywhere and no '.' in `e`, the last '.' is
      the one after the stem. */
  lemma PlainNameIndexes(stem: string, e: string)
    requires '/' !in stem && '/' !in e && '.' !in e
    ensures var p := stem + "." + e;
      && LastIndex(p, '/') == -1 && LastIndex(p, '.') == |stem|
      && DropTrailingSlashes(p) == p && p[|stem|..] == "." + e
  {
    var p := stem + "." + e;
    assert p[|stem|] == '.';
    assert forall i :: |stem| < i < |p| ==> p[i] == e[i - |stem| - 1];
    assert forall i :: 0 <= i < |p| ==> p[i] != '/' by {
      forall i | 0 <= i < |p| ensures p[i] != '/' {
        if i < |stem| { assert p[i] == stem[i]; }
      }
    }
    assert p[|p| - 1] != '/';
  }

  lemma JsExtPlain(stem: string, e: string, k: nat)
    requires '/' !in stem && '/' !in e && '.' !in e
    requires k < |stem| && stem[k] != '.'
    ensures JsExtname(stem + "." + e) == "." + e
  {
    var p := stem + "." + e;
    PlainNameIndexes(stem, e);
    assert p[0..] == p;
    assert p[k] == stem[k];
  }

  lemma PyExtPlain(stem: string, e: string, k: nat)
    requires '/' !in stem && '/' !in e && '.' !in e
    requires k < |stem| && stem[k] != '.'
    ensures PyExt(stem + "." + e) == "." + e
  {
    var p := stem + "." + e;
    PlainNameIndexes(stem, e);
    assert p[k] == stem[k];
  }

  /** For an ordinary name (a stem with some character other than '.', no
      directory part, and one final '.'), both back ends take the same
      extension. */
  lemma ExtAgree(stem: string, e: string)
    requires '/' !in stem && '/' !in e && '.' !in e
    requires exists k :: 0 <= k < |stem| && stem[k] != '.'
    ensures JsExtname(stem + "." + e) == "." + e
    ensures PyExt(stem + "." + e) == "." + e
  {
    var k :| 0 <= k < |stem| && stem[k] != '.';
    JsExtPlain(stem, e, k);
    PyExtPlain(stem, e, k);
  }

  /** The two back ends disagree on a name made of leading dots and a
      suffix: Node takes ".a" from "..a", Python takes nothing. */
  lemma LeadingDotsDiffer()
    ensures JsExtname("..a") == ".a"
    ensures PyExt("..a") == ""
  {
    assert LastIndex("..a", '/') == -1;
    assert LastIndex("..a", '.') == 1;
    assert DropTrailingSlashes("..a") == "..a";
    assert "..a"[0..] == "..a";
  }

  // ---------------------------------------------------------------------
  // Stored names, folders, URLs
  // ---------------------------------------------------------------------

  /** The Express stored name: sanitised button name, '_', the uuid, and
      the extension of the uploaded name. */
  function JsStoredFilename(originalName: string, buttonName: string, uuid: string): string {
    JsSanitise(buttonName) + "_" + uuid + JsExtname(originalName)
  }

  /** The Flask stored name: sanitised button name, '_', the hex uuid, and
      the extension of the uploaded name. */
  function PyStoredFilename(originalName: string, buttonName: string, hex: string,
                            alnum: char -> bool): string {
    PySanitise(buttonName, alnum) + "_" + hex + PyExt(originalName)
  }

  lemma SafeHasNoSlash(s: string)
    requires AllSafe(s)
    ensures '/' !in s
  {
    assert forall k :: 0 <= k < |s| ==> s[k] != '/';
  }

  lemma NoSlashJoin(name: string, id: string, ext: string)
    requires '/' !in name && '/' !in id && '/' !in ext
    ensures '/' !in name + "_" + id + ext
  {
    assert '/' !in name + "_";
  }

  /** A stored name is never a path: it holds no '/', whatever the button
      name and the uploaded name were. */
  lemma JsStoredFilenameIsPlain(originalName: string, buttonName: string, uuid: string)
    requires '/' !in uuid
    ensures '/' !in JsStoredFilename(originalName, buttonName, uuid)
  {
    JsSanitiseSafe(buttonName);
    SafeHasNoSlash(JsSanitise(buttonName));
    NoSlashJoin(JsSanitise(buttonName), uuid, JsExtname(originalName));
  }

  lemma PyStoredFilenameIsPlain(originalName: string, buttonName: string, hex: string,
                                alnum: char -> bool)
    requires '/' !in hex && !alnum('/')
    ensures '/' !in PyStoredFilename(originalName, buttonName, hex, alnum)
  {
    var s := PySanitise(buttonName, alnum);
    PySanitiseSafe(buttonName, alnum);
    assert '/' !in s by {
      assert forall k :: 0 <= k < |s| ==> s[k] != '/';
    }
    NoSlashJoin(s, hex, PyExt(originalName));
  }

  /** `uploads/${fileType}s`, the Express storage folder. */
  function JsUploadDir(fileType: string): string {
    "uploads/" + fileType + "s"
  }

  /** Folder of `save_file_to_disk`/`delete_file_from_disk`, relative to
      the application directory. */
  function FlaskFolder(fileType: string): string {
    if fileType == "image" then "uploads/images"
    else if fileType == "sound" then "uploads/audio"
    else "uploads"
  }

  /** `getFileUrl`. */
  function FileUrl(filename: string, fileType: string): string {
    "http://localhost:5000/uploads/" + fileType + "s/" + filename
  }

  /** The public URL names the file inside its storage folder. */
  lemma FileUrlInUploadDir(filename: string, fileType: string)
    ensures FileUrl(filename, fileType) == "http://localhost:5000/" + JsUploadDir(fileType) + "/" + filename
  {
  }

  /** The two back ends agree on the image folder and disagree on sounds. */
  lemma FoldersCompared()
    ensures JsUploadDir("image") == FlaskFolder("image")
    ensures JsUploadDir("sound") == "uploads/sounds" && FlaskFolder("sound") == "uploads/audio"
  {
  }

  // ---------------------------------------------------------------------
  // MIME types
  // ---------------------------------------------------------------------

  /** ASCII lower-casing. `toLowerCase` is full Unicode lower-casing, but
      every key of the tables below is ASCII and no string holding a
      non-ASCII character lower-cases to a key, so lookups agree. */
  function LowerChar(c: char): char {
    if 'A' <= c <= 'Z' then (c as int + 32) as char else c
  }

  function Lower(s: string): (r: string)
    ensures |r| == |s|
    ensures forall i :: 0 <= i < |s| ==> r[i] == LowerChar(s[i])
    decreases |s|
  {
    if s == [] then [] else [LowerChar(s[0])] + Lower(s[1..])
  }

  lemma LowerIdempotent(s: string)
    ensures Lower(Lower(s)) == Lower(s)
  {
  }

  const ImageTypes: map<string, string> :=
    map[".jpg" := "image/jpeg", ".jpeg" := "image/jpeg", ".png" := "image/png",
        ".gif" := "image/gif", ".webp" := "image/webp", ".svg" := "image/svg+xml",
        ".bmp" := "image/bmp"]

  const AudioTypes: map<string, string> :=
    map[".mp3" := "audio/mpeg", ".wav" := "audio/wav", ".ogg" := "audio/ogg",
        ".m4a" := "audio/mp4", ".aac" := "audio/aac", ".flac" := "audio/flac"]

  /** `getContentType`. */
  function ContentType(ext: string, fileType: string): (r: string)
    ensures fileType == "image" ==> r == (if Lower(ext) in ImageTypes then ImageTypes[Lower(ext)] else "image/jpeg")
    ensures fileType == "sound" ==> r == (if Lower(ext) in AudioTypes then AudioTypes[Lower(ext)] else "audio/mpeg")
    ensures fileType != "image" && fileType != "sound" ==> r == "application/octet-stream"
  {
    var e := Lower(ext);
    if fileType == "image" then (if e in ImageTypes then ImageTypes[e] else "image/jpeg")
    else if fileType == "sound" then (if e in AudioTypes then AudioTypes[e] else "audio/mpeg")
    else "application/octet-stream"
  }

  /** The lookup ignores case. */
  lemma ContentTypeIgnoresCase(ext: string, fileType: string)
    ensures ContentType(ext, fileType) == ContentType(Lower(ext), fileType)
  {
    LowerIdempotent(ext);
  }

  predicate InFamily(mime: string, family: string) {
    |mime| > |family| && mime[..|family|] == family
  }

  /** An image is always served with an image type and a sound with an
      audio type. */
  lemma ContentTypeFamily(ext: string, fileType: string)
    ensures fileType == "image" ==> InFamily(ContentType(ext, fileType), "image/")
    ensures fileType == "sound" ==> InFamily(ContentType(ext, fileType), "audio/")
  {
    ImageTypesFamily();
    AudioTypesFamily();
  }

  lemma ImageTypesFamily()
    ensures forall k :: k in ImageTypes ==> InFamily(ImageTypes[k], "image/")
    ensures InFamily("image/jpeg", "image/")
  {
    forall k | k in ImageTypes ensures InFamily(ImageTypes[k], "image/") {
    }
  }

  lemma AudioTypesFamily()
    ensures forall k :: k in AudioTypes ==> InFamily(AudioTypes[k], "audio/")
    ensures InFamily("audio/mpeg", "audio/")
  {
    forall k | k in AudioTypes ensures InFamily(AudioTypes[k], "audio/") {
    }
  }

  // ---------------------------------------------------------------------
  // Storage delete
  // ---------------------------------------------------------------------

  /** What the file system does when asked to remove a stored file. */
  datatype FsFault = NoFault | OtherError

  /** `deleteFileFromStorage` over the set of stored files: true when the
      file is gone afterwards, including when it was already absent (the
      ENOENT case); false, with nothing removed, on any other error. */
  function DeleteFromStorage(stored: set<string>, path: string, fault: FsFault): (r: (bool, set<string>))
    ensures r.0 <==> fault.NoFault?
    ensures r.0 ==> r.1 == stored - {path}
    ensures !r.0 ==> r.1 == stored
  {
    if fault.OtherError? then (false, stored) else (true, stored - {path})
  }

  /** Deleting twice is the same as deleting once, and the second call
      still reports success. */
  lemma DeleteIdempotent(stored: set<string>, path: string)
    ensures var once := DeleteFromStorage(stored, path, NoFault);
      DeleteFromStorage(once.1, path, NoFault) == once
  {
    assert (stored - {path}) - {path} == stored - {path};
  }
}
