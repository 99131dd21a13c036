/**
 * The `.env` loader of dcj: each line of the file is trimmed, comments and blank
 * lines are skipped, an `export ` prefix is dropped, the line is split at its first
 * `=`, an inline comment is cut from an unquoted value, quotes are removed (with
 * escape decoding), and a binding with a valid key is installed only when the key
 * is not in the environment yet.
 *
 * The environment is a map passed in and returned; the file is given as its lines.
 */
module DotEnv {
  import opened Wrappers
  import opened Text

  // ---------------------------------------------------------------------------
  // Inline comments

  /** Quote and escape state of the inline-comment scanner. */
  datatype ScanState = ScanState(inSingle: bool, inDouble: bool, esc: bool)

  const Start := ScanState(false, false, false)

  /** The scanner's state after reading `ch`: an escaped character changes nothing
      but ends the escape, a backslash starts one, and a quote toggles its kind
      unless it stands inside the other kind. */
  function Step(st: ScanState, ch: char): ScanState {
    if st.esc then st.(esc := false)
    else if ch == '\\' then st.(esc := true)
    else if ch == '\'' && !st.inDouble then st.(inSingle := !st.inSingle)
    else if ch == '"' && !st.inSingle then st.(inDouble := !st.inDouble)
    else st
  }

  /** A `#` that starts a comment: not escaped and outside both kinds of quotes. */
  predicate OpensComment(st: ScanState, ch: char) {
    !st.esc && ch == '#' && !st.inSingle && !st.inDouble
  }

  /** The scanner's state after reading all of `s`. */
  function StateAfter(s: string): ScanState
    decreases |s|
  {
    if s == [] then Start else Step(StateAfter(s[..|s| - 1]), s[|s| - 1])
  }

  /** The character at `j` starts the comment, given the state the text before it leaves. */
  predicate OpensAt(text: string, j: int) {
    0 <= j < |text| && OpensComment(StateAfter(text[..j]), text[j])
  }

  function CutFrom(text: string, i: nat, st: ScanState): (k: nat)
    requires i <= |text|
    ensures i <= k <= |text|
    decreases |text| - i
  {
    if i == |text| then |text|
    else if OpensComment(st, text[i]) then i
    else CutFrom(text, i + 1, Step(st, text[i]))
  }

  lemma {:induction false} CutFromFindsFirst(text: string, i: nat, st: ScanState)
    requires i <= |text| && st == StateAfter(text[..i])
    requires forall j :: 0 <= j < i ==> !OpensAt(text, j)
    ensures var k := CutFrom(text, i, st);
      && (k < |text| ==> OpensAt(text, k))
      && forall j :: 0 <= j < k ==> !OpensAt(text, j)
    decreases |text| - i
  {
    if i < |text| && !OpensComment(st, text[i]) {
      assert text[..i + 1][..i] == text[..i];
      assert StateAfter(text[..i + 1]) == Step(st, text[i]);
      assert !OpensAt(text, i);
      CutFromFindsFirst(text, i + 1, Step(st, text[i]));
    }
  }

  /** Where the inline comment of `text` starts: the first `#` that is neither
      escaped nor quoted, or `|text|` when there is none. */
  function CommentStart(text: string): (k: nat)
    ensures k <= |text|
    ensures k < |text| ==> OpensAt(text, k)
    ensures forall j :: 0 <= j < k ==> !OpensAt(text, j)
  {
    assert text[..0] == [];
    CutFromFindsFirst(text, 0, Start);
    CutFrom(text, 0, Start)
  }

  /** The value with its inline comment removed and trailing whitespace trimmed. */
  function StripInlineComment(text: string): string {
    RStrip(text[..CommentStart(text)])
  }

  /** `strip_inline_comment_unquoted`: scans the value once, tracking quotes and
      escapes, and cuts it at the first live `#`. */
  method StripInlineCommentUnquoted(text: string) returns (r: string)
    ensures r == RStrip(text[..CommentStart(text)])
  {
    var inSingle, inDouble, esc := false, false, false;
    for i := 0 to |text|
      invariant ScanState(inSingle, inDouble, esc) == StateAfter(text[..i])
      invariant forall j :: 0 <= j < i ==> !OpensAt(text, j)
    {
      var ch := text[i];
      assert text[..i + 1][..i] == text[..i];
      if esc {
        esc := false;
      } else if ch == '\\' {
        esc := true;
      } else if ch == '\'' && !inDouble {
        inSingle := !inSingle;
      } else if ch == '"' && !inSingle {
        inDouble := !inDouble;
      } else if ch == '#' && !inSingle && !inDouble {
        assert OpensAt(text, i);
        assert CommentStart(text) == i;
        return RStrip(text[..i]);
      }
    }
    assert CommentStart(text) == |text| && text[..|text|] == text;
    return RStrip(text);
  }

  // ---------------------------------------------------------------------------
  // One line

  /** What one line of the file contributes. */
  datatype LineResult =
    | Ignored                               // blank line or `#` comment
    | NoEquals                              // no `=` in the line
    | InvalidKey(key: string)               // key empty or not `[A-Za-z0-9_]+`
    | Binding(key: string, value: string)

  /** Wrapped in one matching pair of quotes (a lone quote character counts too). */
  predicate Quoted(v: string) {
    (StartsWith(v, "'") && EndsWith(v, "'")) || (StartsWith(v, "\"") && EndsWith(v, "\""))
  }

  /** Python's `v[1:-1]`, which is empty for a value of length one. */
  function Inner(v: string): string {
    if |v| >= 2 then v[1..|v| - 1] else []
  }

  /** The four replacements, in this order: `\n`, `\t`, `\"`, `\'`. Each one turns
      two characters into one, so decoding never lengthens a value, and a value
      without a backslash is left as it is. */
  function DecodeEscapes(v: string): (r: string)
    ensures '\\' !in v ==> r == v
    ensures |r| <= |v|
  {
    Replace(Replace(Replace(Replace(v, "\\n", "\n"), "\\t", "\t"), "\\\"", "\""), "\\'", "'")
  }

  predicate ValidKey(key: string) {
    key != [] && forall i :: 0 <= i < |key| ==> key[i] == '_' || IsAlnum(key[i])
  }

  /** Removes the quote pair. Escapes are decoded when the whole raw line starts with
      a double quote, or when the unquoted value is non-empty and does not start
      with a single quote. */
  predicate DecodesEscapes(inner: string, raw: string) {
    StartsWith(Strip(raw), "\"") || (inner != [] && inner[0] != '\'')
  }

  function Unquote(v: string, raw: string): (r: string)
    ensures |r| <= |Inner(v)|
    ensures '\\' !in Inner(v) || !DecodesEscapes(Inner(v), raw) ==> r == Inner(v)
  {
    var inner := Inner(v);
    if DecodesEscapes(inner, raw) then DecodeEscapes(inner) else inner
  }

  /** An `export ` prefix, in any letter case, is dropped together with the
      whitespace after it. */
  function DropExport(line: string): (r: string)
    ensures StartsWith(Lower(line), "export ") ==> |r| <= |line| - 7 && (r == [] || !IsSpace(r[0]))
    ensures StartsWith(Lower(line), "export ") ==> r == line[|line| - |r|..] && AllSpace(line[7..|line| - |r|])
    ensures !StartsWith(Lower(line), "export ") ==> r == line
  {
    if StartsWith(Lower(line), "export ") then
      var rest := line[7..];
      var r := LStrip(rest);
      assert rest[|rest| - |r|..] == line[|line| - |r|..];
      assert forall i :: 0 <= i < |rest| - |r| ==> line[7..|line| - |r|][i] == rest[i];
      r
    else line
  }

  /** The value as installed: an unquoted value loses its inline comment, then a
      quoted value loses its quotes. */
  function CleanValue(val: string, raw: string): (r: string)
    ensures Quoted(val) ==> r == Unquote(val, raw)
    ensures |r| <= |val|
  {
    var val := if Quoted(val) then val else Strip(StripInlineComment(val));
    if Quoted(val) then Unquote(val, raw) else val
  }

  /** The binding a raw line of the file denotes, if any. */
  function ParseLine(raw: string): (r: LineResult)
    ensures r.Binding? ==> ValidKey(r.key)
    ensures r.InvalidKey? ==> !ValidKey(r.key)
    ensures r.Ignored? <==> Strip(raw) == [] || Strip(raw)[0] == '#'
  {
    var line := Strip(raw);
    if line == [] || line[0] == '#' then Ignored
    else SplitBinding(DropExport(line), raw)
  }

  /** A stripped line without its `export ` prefix, cut at the first `=`: the key is
      the stripped text before it, the value the cleaned text after it. A line
      without `=` binds nothing, and a key that is not `[A-Za-z0-9_]+` is rejected. */
  function SplitBinding(line: string, raw: string): (r: LineResult)
    ensures r.NoEquals? <==> '=' !in line
    ensures r.Binding? ==> ValidKey(r.key)
    ensures r.InvalidKey? ==> !ValidKey(r.key)
    ensures !r.Ignored?
  {
    if '=' !in line then NoEquals
    else
      var eq := IndexOf(line, '=');
      var key := Strip(line[..eq]);
      if ValidKey(key) then Binding(key, CleanValue(Strip(line[eq + 1..]), raw)) else InvalidKey(key)
  }

  /** `Lower(k + rest)` cannot start with `export ` when `k` is a valid key followed
      by `=` or whitespace, unless `k` itself spells `export` and whitespace follows. */
  lemma NoExportPrefix(k: string, rest: string)
    requires ValidKey(k) && rest != [] && (rest[0] == '=' || IsSpace(rest[0]))
    requires IsSpace(rest[0]) ==> Lower(k) != "export"
    ensures !StartsWith(Lower(k + rest), "export ")
  {
    var line := k + rest;
    var low := Lower(line);
    if |low| >= 7 {
      if |k| >= 7 {
        assert low[6] == LowerChar(k[6]) != ' ';
      } else if |k| == 6 {
        assert line[6] == rest[0];
        if IsSpace(rest[0]) {
          assert forall i :: 0 <= i < 6 ==> low[i] == Lower(k)[i];
          assert low[..7][..6] == Lower(k);
        } else {
          assert low[6] == '=';
        }
      } else {
        assert line[|k|] == rest[0];
        assert low[|k|] == LowerChar(rest[0]) != "export "[|k|];
      }
    }
  }

  /** The first `=` of `k + sp1 + "=" + sp2 + v` is the one after the key. */
  lemma FirstEqualsAfterKey(line: string, k: string, sp1: string, sp2: string, v: string)
    requires ValidKey(k) && AllSpace(sp1) && line == k + sp1 + "=" + sp2 + v
    ensures IndexOf(line, '=') == |k| + |sp1| < |line|
  {
    var eq := |k| + |sp1|;
    assert line[eq] == '=';
    forall j | 0 <= j < eq
      ensures line[j] != '='
    {
      if j < |k| {
        assert line[j] == k[j];
      } else {
        assert line[j] == sp1[j - |k|];
      }
    }
  }

  lemma KeySlices(line: string, eq: nat, k: string, sp1: string, sp2: string, v: string)
    requires line == k + sp1 + "=" + sp2 + v && eq == |k| + |sp1|
    ensures line[..eq] == k + sp1 && line[eq + 1..] == sp2 + v
  {
  }

  /** A valid key neither starts nor ends with whitespace. */
  lemma KeyEdges(k: string)
    requires ValidKey(k)
    ensures !IsSpace(k[0]) && !IsSpace(k[|k| - 1])
  {
    assert k[0] == '_' || IsAlnum(k[0]);
    assert k[|k| - 1] == '_' || IsAlnum(k[|k| - 1]);
  }

  /** `k + sp1 + "=" + sp2 + v` splits at the `=` after the key, and stripping
      both sides gives back `k` and `v`. */
  lemma SplitsAtEquals(line: string, eq: nat, k: string, sp1: string, sp2: string, v: string)
    requires ValidKey(k) && AllSpace(sp1) && AllSpace(sp2)
    requires v != [] && !IsSpace(v[0]) && !IsSpace(v[|v| - 1])
    requires line == k + sp1 + "=" + sp2 + v && eq == |k| + |sp1|
    ensures eq < |line| && IndexOf(line, '=') == eq
    ensures Strip(line[..eq]) == k
    ensures Strip(line[eq + 1..]) == v
  {
    FirstEqualsAfterKey(line, k, sp1, sp2, v);
    KeySlices(line, eq, k, sp1, sp2, v);
    KeyEdges(k);
    StripTrailing(k, sp1);
    StripLeading(sp2, v);
  }

  /** A line that is neither blank nor a comment is parsed from its prefix-free form. */
  lemma ParsesVia(raw: string, line: string)
    requires Strip(raw) != [] && Strip(raw)[0] != '#' && DropExport(Strip(raw)) == line
    ensures ParseLine(raw) == SplitBinding(line, raw)
  {
  }

  /** A line whose first `=` is at `eq`, with `k` and `v` around it, binds `k`. */
  lemma SplitAt(line: string, raw: string, eq: nat, k: string, v: string)
    requires eq < |line| && IndexOf(line, '=') == eq
    requires Strip(line[..eq]) == k && Strip(line[eq + 1..]) == v && ValidKey(k)
    ensures SplitBinding(line, raw) == Binding(k, CleanValue(v, raw))
  {
    assert line[eq] == '=';
    assert '=' in line;
    var key := Strip(line[..IndexOf(line, '=')]);
    assert key == k;
    assert ValidKey(key);
    var val := CleanValue(Strip(line[IndexOf(line, '=') + 1..]), raw);
    assert val == CleanValue(v, raw);
    assert SplitBinding(line, raw) == Binding(key, val);
  }

  /** A line starting with a key is kept whole by `strip` and by the `export `
      check, unless the key spells `export` and a space follows it. */
  lemma PlainLineKept(raw: string, k: string, sp1: string, sp2: string, v: string)
    requires ValidKey(k) && AllSpace(sp1) && AllSpace(sp2)
    requires v != [] && !IsSpace(v[|v| - 1])
    requires sp1 == [] || Lower(k) != "export"
    requires raw == k + sp1 + "=" + sp2 + v
    ensures raw != [] && raw[0] != '#'
    ensures Strip(raw) == raw && DropExport(raw) == raw
  {
    var rest := sp1 + "=" + sp2 + v;
    assert raw == k + rest;
    assert raw[0] == k[0] && raw[|raw| - 1] == v[|v| - 1];
    KeyEdges(k);
    StripKeeps(raw);
    assert rest[0] == if sp1 == [] then '=' else sp1[0];
    NoExportPrefix(k, rest);
  }

  /** `KEY=VALUE`, with optional whitespace around `=` and around the whole line:
      the key is the text before `=`, and the value is the text after it, cleaned.
      The one exception is a key spelled `export` followed by a space (see
      `ExportNamedKey`). */
  lemma BindingLine(raw: string, pre: string, line: string, post: string, k: string, sp1: string, sp2: string, v: string)
    requires AllSpace(pre) && AllSpace(post)
    requires ValidKey(k) && AllSpace(sp1) && AllSpace(sp2)
    requires v != [] && !IsSpace(v[0]) && !IsSpace(v[|v| - 1])
    requires sp1 == [] || Lower(k) != "export"
    requires line == k + sp1 + "=" + sp2 + v
    requires raw == pre + line + post
    ensures ParseLine(raw) == Binding(k, CleanValue(v, raw))
  {
    PlainLineKept(line, k, sp1, sp2, v);
    KeyEdges(k);
    assert line[0] == k[0] && line[|line| - 1] == v[|v| - 1];
    StripExact(pre, line, post);
    ParsesVia(raw, line);
    var eq := |k| + |sp1|;
    SplitsAtEquals(line, eq, k, sp1, sp2, v);
    assert eq < |line| && IndexOf(line, '=') == eq;
    assert Strip(line[..eq]) == k && Strip(line[eq + 1..]) == v;
    SplitAt(line, raw, eq, k, v);
    assert ParseLine(raw) == SplitBinding(line, raw);
  }

  /** `export ` in any letter case. */
  predicate ExportPrefix(p: string) {
    |p| == 7 && Lower(p) == "export "
  }

  /** A line starting with `export `, in any letter case, loses the prefix and the
      whitespace after it. */
  lemma DropsExport(p: string, rest: string)
    requires ExportPrefix(p)
    ensures DropExport(p + rest) == LStrip(rest)
  {
    var line := p + rest;
    assert forall i :: 0 <= i < 7 ==> Lower(line)[i] == Lower(p)[i];
    assert Lower(line)[..7] == "export ";
    assert line[7..] == rest;
  }

  /** `p + sp0 + line` is kept whole by `strip`, and the prefix check leaves `line`. */
  lemma ExportedLineKept(t: string, p: string, sp0: string, line: string, k: string, last: char)
    requires ExportPrefix(p) && AllSpace(sp0) && ValidKey(k) && !IsSpace(last)
    requires line != [] && line[0] == k[0] && line[|line| - 1] == last
    requires t == p + sp0 + line
    ensures t != [] && !IsSpace(t[0]) && t[0] != '#' && !IsSpace(t[|t| - 1]) && DropExport(t) == line
  {
    var afterPrefix := sp0 + line;
    assert t == p + afterPrefix;
    assert LowerChar(t[0]) == Lower(p)[0] == 'e';
    assert t[|t| - 1] == last;
    DropsExport(p, afterPrefix);
    KeyEdges(k);
    LStripExact(sp0, line);
  }

  /** `export KEY=VALUE`, with the prefix in any letter case and optional whitespace
      around the whole line: the prefix and the whitespace after it are dropped, and
      the rest reads as a plain binding. */
  lemma ExportedBindingLine(raw: string, pre: string, p: string, sp0: string, line: string, post: string, k: string, sp1: string, sp2: string, v: string)
    requires ExportPrefix(p) && AllSpace(pre) && AllSpace(post) && AllSpace(sp0)
    requires ValidKey(k) && AllSpace(sp1) && AllSpace(sp2)
    requires v != [] && !IsSpace(v[0]) && !IsSpace(v[|v| - 1])
    requires line == k + sp1 + "=" + sp2 + v
    requires raw == pre + (p + sp0 + line) + post
    ensures ParseLine(raw) == Binding(k, CleanValue(v, raw))
  {
    var t := p + sp0 + line;
    assert line[0] == k[0] && line[|line| - 1] == v[|v| - 1];
    ExportedLineKept(t, p, sp0, line, k, v[|v| - 1]);
    StripExact(pre, t, post);
    ParsesVia(raw, line);
    var eq := |k| + |sp1|;
    SplitsAtEquals(line, eq, k, sp1, sp2, v);
    assert eq < |line| && IndexOf(line, '=') == eq;
    assert Strip(line[..eq]) == k && Strip(line[eq + 1..]) == v;
    SplitAt(line, raw, eq, k, v);
    assert ParseLine(raw) == SplitBinding(line, raw);
  }

  /** `k + sp1 + "="` splits at its last character into `k` and an empty value. */
  lemma SplitsAtTrailingEquals(line: string, k: string, sp1: string, raw: string)
    requires ValidKey(k) && AllSpace(sp1) && line == k + sp1 + "="
    ensures SplitBinding(line, raw) == Binding(k, [])
  {
    var eq := |k| + |sp1|;
    assert line == k + sp1 + "=" + [] + [];
    FirstEqualsAfterKey(line, k, sp1, [], []);
    assert line[..eq] == k + sp1 && line[eq + 1..] == [];
    KeyEdges(k);
    StripTrailing(k, sp1);
    assert Strip([]) == [];
    SplitAt(line, raw, eq, k, []);
    assert CleanValue([], raw) == [];
  }

  /** `KEY=` binds `KEY` to the empty string, with the same whitespace allowances as
      `BindingLine`. */
  lemma EmptyValueLine(raw: string, pre: string, line: string, post: string, k: string, sp1: string)
    requires AllSpace(pre) && AllSpace(post)
    requires ValidKey(k) && AllSpace(sp1)
    requires sp1 == [] || Lower(k) != "export"
    requires line == k + sp1 + "="
    requires raw == pre + line + post
    ensures ParseLine(raw) == Binding(k, [])
  {
    KeyEdges(k);
    assert line[0] == k[0] && line[|line| - 1] == '=';
    assert k[0] == '_' || IsAlnum(k[0]);
    StripExact(pre, line, post);
    var rest := sp1 + "=";
    assert line == k + rest;
    assert rest[0] == if sp1 == [] then '=' else sp1[0];
    NoExportPrefix(k, rest);
    ParsesVia(raw, line);
    SplitsAtTrailingEquals(line, k, sp1, raw);
  }

  /** `export KEY=`, with the prefix in any letter case, binds `KEY` to the empty
      string. */
  lemma ExportedEmptyValueLine(raw: string, pre: string, p: string, sp0: string, line: string, post: string, k: string, sp1: string)
    requires ExportPrefix(p) && AllSpace(pre) && AllSpace(post) && AllSpace(sp0)
    requires ValidKey(k) && AllSpace(sp1)
    requires line == k + sp1 + "="
    requires raw == pre + (p + sp0 + line) + post
    ensures ParseLine(raw) == Binding(k, [])
  {
    var t := p + sp0 + line;
    assert line[0] == k[0] && line[|line| - 1] == '=';
    ExportedLineKept(t, p, sp0, line, k, '=');
    StripExact(pre, t, post);
    ParsesVia(raw, line);
    SplitsAtTrailingEquals(line, k, sp1, raw);
  }

  /** Dropping the prefix leaves a suffix of the line. */
  lemma DropExportSuffix(line: string)
    ensures |DropExport(line)| <= |line| && DropExport(line) == line[|line| - |DropExport(line)|..]
  {
  }

  lemma NotInSuffix(s: string, t: string, c: char)
    requires |t| <= |s| && t == s[|s| - |t|..] && c !in s
    ensures c !in t
  {
    forall i | 0 <= i < |t| ensures t[i] != c {
      assert t[i] == s[|s| - |t| + i];
    }
  }

  /** `strip` only removes characters. */
  lemma NotInStrip(s: string, c: char)
    requires c !in s
    ensures c !in Strip(s)
  {
    var l := LStrip(s);
    NotInSuffix(s, l, c);
    var r := RStrip(l);
    assert forall i :: 0 <= i < |r| ==> r[i] == l[i];
  }

  /** A line without `=` that is neither blank nor a comment binds nothing. */
  lemma NoEqualsLine(raw: string)
    requires '=' !in raw
    requires Strip(raw) != [] && Strip(raw)[0] != '#'
    ensures ParseLine(raw) == NoEquals
  {
    var line := Strip(raw);
    NotInStrip(raw, '=');
    DropExportSuffix(line);
    NotInSuffix(line, DropExport(line), '=');
    ParsesVia(raw, DropExport(line));
  }

  /** `k + " =" + v` with `k` spelling `export` loses `k` and the space as an
      `export ` prefix. */
  lemma ExportNamedLineCut(raw: string, k: string, v: string)
    requires Lower(k) == "export"
    requires v != [] && !IsSpace(v[|v| - 1])
    requires raw == k + " =" + v
    ensures Strip(raw) != [] && Strip(raw)[0] != '#' && DropExport(Strip(raw)) == "=" + v
  {
    assert LowerChar(raw[0]) == Lower(k)[0] == 'e';
    assert raw[|raw| - 1] == v[|v| - 1];
    StripKeeps(raw);
    assert forall i :: 0 <= i < 7 ==> Lower(raw)[i] == "export "[i];
    assert Lower(raw)[..7] == "export ";
    assert raw[7..] == "=" + v;
    LStripExact([], "=" + v);
    assert [] + ("=" + v) == "=" + v;
  }

  /** A line whose first character is `=` has an empty key. */
  lemma EmptyKey(line: string, raw: string)
    requires line != [] && line[0] == '='
    ensures SplitBinding(line, raw) == InvalidKey([])
  {
    assert IndexOf(line, '=') == 0 && line[..0] == [];
    assert Strip([]) == [];
  }

  /** The exception to `BindingLine`: a key spelled `export`, in any letter case,
      followed by a space reads as the `export ` prefix, which leaves an empty key. */
  lemma ExportNamedKey(raw: string, k: string, v: string)
    requires Lower(k) == "export"
    requires v != [] && !IsSpace(v[|v| - 1])
    requires raw == k + " =" + v
    ensures ParseLine(raw) == InvalidKey([])
  {
    ExportNamedLineCut(raw, k, v);
    ParsesVia(raw, "=" + v);
    EmptyKey("=" + v, raw);
  }

  // ---------------------------------------------------------------------------
  // The whole file

  /** The environment and the keys added to it so far, in the order they were added. */
  datatype Loaded = Loaded(env: map<string, string>, keys: seq<string>)

  /** Insert-if-absent of one line's binding. */
  function Install(acc: Loaded, r: LineResult): Loaded {
    if r.Binding? && r.key !in acc.env then Loaded(acc.env[r.key := r.value], acc.keys + [r.key])
    else acc
  }

  /** The insert-if-absent fold over the lines: the keys added so far stay listed
      first, in order, and each line adds at most one key. */
  function LoadFrom(lines: seq<string>, acc: Loaded): (r: Loaded)
    ensures acc.keys <= r.keys && |r.keys| <= |acc.keys| + |lines|
    decreases |lines|
  {
    if lines == [] then acc else LoadFrom(lines[1..], Install(acc, ParseLine(lines[0])))
  }

  /** `load_dotenv`: `file` is the file's lines, or None when the path is not a
      regular file. Returns the new environment and the keys it added. */
  method LoadDotenv(file: Option<seq<string>>, env: map<string, string>)
    returns (environ: map<string, string>, loadedKeys: seq<string>)
    ensures file.None? ==> environ == env && loadedKeys == []
    ensures file.Some? ==> Loaded(environ, loadedKeys) == LoadFrom(file.value, Loaded(env, []))
  {
    environ, loadedKeys := env, [];
    if file.None? {
      return;
    }
    var lines := file.value;
    var n := 0;
    while n < |lines|
      invariant 0 <= n <= |lines|
      invariant LoadFrom(lines, Loaded(env, [])) == LoadFrom(lines[n..], Loaded(environ, loadedKeys))
    {
      var rawLine := lines[n];
      assert lines[n..][0] == rawLine && lines[n..][1..] == lines[n + 1..];
      ghost var parsed := ParseLine(rawLine);
      n := n + 1;
      var line := Strip(rawLine);
      if line == [] || line[0] == '#' {
        continue;
      }
      if StartsWith(Lower(line), "export ") {
        line := LStrip(line[7..]);
      }
      assert line == DropExport(Strip(rawLine));
      if '=' !in line {
        continue;
      }
      var eq := IndexOf(line, '=');
      var key, val := Strip(line[..eq]), Strip(line[eq + 1..]);
      ghost var unclean := val;
      if !Quoted(val) {
        val := StripInlineCommentUnquoted(val);
        val := Strip(val);
      }
      if Quoted(val) {
        val := Inner(val);
        if DecodesEscapes(val, rawLine) {
          val := DecodeEscapes(val);
        }
      }
      assert val == CleanValue(unclean, rawLine);
      if ValidKey(key) {
        assert parsed == Binding(key, val);
        if key !in environ {
          environ := environ[key := val];
          loadedKeys := loadedKeys + [key];
        }
      }
    }
  }

  // ---------------------------------------------------------------------------
  // Properties of the loader

  /** `acc` is `env` extended by insert-if-absent of valid keys: nothing of `env`
      changed, the new keys are exactly those listed, each listed once. */
  predicate AddsTo(acc: Loaded, env: map<string, string>) {
    && (forall k :: k in env ==> k in acc.env && acc.env[k] == env[k])
    && acc.env.Keys == env.Keys + (set k | k in acc.keys)
    && (forall i :: 0 <= i < |acc.keys| ==> acc.keys[i] !in env && ValidKey(acc.keys[i]))
    && (forall i, j :: 0 <= i < j < |acc.keys| ==> acc.keys[i] != acc.keys[j])
  }

  lemma InstallAdds(acc: Loaded, env: map<string, string>, r: LineResult)
    requires AddsTo(acc, env) && (r.Binding? ==> ValidKey(r.key))
    ensures AddsTo(Install(acc, r), env)
  {
    if r.Binding? && r.key !in acc.env {
      var keys := acc.keys + [r.key];
      assert (set k | k in keys) == (set k | k in acc.keys) + {r.key};
    }
  }

  lemma {:induction false} LoadAdds(lines: seq<string>, acc: Loaded, env: map<string, string>)
    requires AddsTo(acc, env)
    ensures AddsTo(LoadFrom(lines, acc), env)
    decreases |lines|
  {
    if lines != [] {
      InstallAdds(acc, env, ParseLine(lines[0]));
      LoadAdds(lines[1..], Install(acc, ParseLine(lines[0])), env);
    }
  }

  /** Loading never changes a key already in the environment; the returned keys
      are exactly the new ones, each valid and listed once. */
  lemma LoadNeverOverwrites(lines: seq<string>, env: map<string, string>)
    ensures AddsTo(LoadFrom(lines, Loaded(env, [])), env)
  {
    assert (set k: string | k in Loaded(env, []).keys) == {};
    LoadAdds(lines, Loaded(env, []), env);
  }

  /** The value of the first line that binds `key`, if any. */
  function FirstBinding(lines: seq<string>, key: string): Option<string>
    decreases |lines|
  {
    if lines == [] then None
    else
      var r := ParseLine(lines[0]);
      if r.Binding? && r.key == key then Some(r.value) else FirstBinding(lines[1..], key)
  }

  /** First writer wins: a key already present keeps its value; otherwise the key
      ends up bound exactly when some line binds it, to the value of the first
      such line. */
  lemma {:induction false} FirstWriterWins(lines: seq<string>, acc: Loaded, key: string)
    ensures var out := LoadFrom(lines, acc).env;
      && (key in acc.env ==> key in out && out[key] == acc.env[key])
      && (key !in acc.env ==> (key in out <==> FirstBinding(lines, key).Some?))
      && (key !in acc.env && key in out ==> out[key] == FirstBinding(lines, key).value)
    decreases |lines|
  {
    if lines != [] {
      var r := ParseLine(lines[0]);
      var next := Install(acc, r);
      assert LoadFrom(lines, acc) == LoadFrom(lines[1..], next);
      assert FirstBinding(lines, key) ==
        if r.Binding? && r.key == key then Some(r.value) else FirstBinding(lines[1..], key);
      FirstWriterWins(lines[1..], next, key);
    }
  }

  /** A plain value (no `#`, no quote character, no whitespace at either end) is
      stored exactly as written; backslashes in it are kept, not decoded. */
  lemma PlainValueKept(v: string, raw: string)
    requires v != [] && !IsSpace(v[0]) && !IsSpace(v[|v| - 1])
    requires '#' !in v && '\'' !in v && '"' !in v
    ensures CleanValue(v, raw) == v
  {
    NotQuoted(v);
    forall j | 0 <= j < |v| ensures !OpensAt(v, j) {
      assert v[j] in v;
    }
    assert CommentStart(v) == |v|;
    assert v[..|v|] == v;
    StripKeeps(v);
  }

  /** A value wrapped in quotes keeps everything inside, `#` included, as long as
      it holds no backslash. */
  lemma QuotedValueKept(q: char, v: string, raw: string)
    requires q == '"' || q == '\''
    requires '\\' !in v
    ensures CleanValue([q] + v + [q], raw) == v
  {
    var w := [q] + v + [q];
    assert w[..1] == [q] && w[|w| - 1..] == [q];
    assert Quoted(w);
    assert Inner(w) == v;
  }

  /** Escape sequences ARE decoded in a single-quoted value, unless its content
      starts with a single quote itself: the decision looks at the unquoted content,
      not at the kind of quote. */
  lemma SingleQuotedValueDecoded(v: string, raw: string)
    requires v != [] && v[0] != '\''
    ensures CleanValue("'" + v + "'", raw) == DecodeEscapes(v)
  {
    var w := "'" + v + "'";
    assert w[..1] == "'" && w[|w| - 1..] == "'";
    assert Quoted(w);
    assert Inner(w) == v;
  }

  /** Escapes are decoded in a double-quoted value too, unless its content starts
      with a single quote and the line itself does not start with `"`. */
  lemma DoubleQuotedValueDecoded(v: string, raw: string)
    requires v == [] || v[0] != '\'' || StartsWith(Strip(raw), "\"")
    ensures CleanValue("\"" + v + "\"", raw) == DecodeEscapes(v)
  {
    var w := "\"" + v + "\"";
    assert w[..1] == "\"" && w[|w| - 1..] == "\"";
    assert Quoted(w);
    assert Inner(w) == v;
  }

  /** One of the four escape sequences and the character it stands for. */
  predicate Escape(e: string, c: char) {
    || (e == "\\n" && c == '\n')
    || (e == "\\t" && c == '\t')
    || (e == "\\\"" && c == '"')
    || (e == "\\'" && c == '\'')
  }

  /** One decoding pass over `a + (y + b)`: `a` holds no backslash, and `y` is either
      backslash-free or a backslash followed by something other than a backslash. */
  lemma EscapePass(a: string, y: string, b: string, pat: string, rep: string)
    requires |pat| == 2 && pat[0] == '\\' && '\\' !in a
    requires '\\' !in y || (|y| == 2 && y[1] != '\\')
    ensures Replace(a + (y + b), pat, rep) == a + ((if y == pat then rep else y) + Replace(b, pat, rep))
  {
    if '\\' !in y {
      assert y != pat by { assert pat[0] in pat; }
      ReplaceFreePiece(a, y, b, pat, rep);
    } else {
      ReplacePairPiece(a, y, b, pat, rep);
    }
  }

  /** What the four replacement passes, in order, leave of a two-character piece. */
  function PassesLeave(y: string): string {
    var y1 := if y == "\\n" then "\n" else y;
    var y2 := if y1 == "\\t" then "\t" else y1;
    var y3 := if y2 == "\\\"" then "\"" else y2;
    if y3 == "\\'" then "'" else y3
  }

  /** The four replacement passes over `a + y + b`, where `a` holds no backslash
      and `y` is a backslash and one other character: the decoded text is `a`,
      then what the passes leave of `y`, then the decoded rest. */
  lemma DecodePasses(a: string, y: string, b: string)
    requires '\\' !in a && |y| == 2 && y[0] == '\\' && y[1] != '\\'
    ensures DecodeEscapes(a + y + b) == a + (PassesLeave(y) + DecodeEscapes(b))
  {
    assert a + y + b == a + (y + b);
    var y1 := if y == "\\n" then "\n" else y;
    var y2 := if y1 == "\\t" then "\t" else y1;
    var y3 := if y2 == "\\\"" then "\"" else y2;
    var b1 := Replace(b, "\\n", "\n");
    var b2 := Replace(b1, "\\t", "\t");
    var b3 := Replace(b2, "\\\"", "\"");
    EscapePass(a, y, b, "\\n", "\n");
    EscapePass(a, y1, b1, "\\t", "\t");
    EscapePass(a, y2, b2, "\\\"", "\"");
    EscapePass(a, y3, b3, "\\'", "'");
  }

  /** Each escape is a backslash and one other character, and the passes leave
      exactly the character it stands for. */
  lemma EscapeLeaves(e: string, c: char)
    requires Escape(e, c)
    ensures |e| == 2 && e[0] == '\\' && e[1] != '\\'
    ensures PassesLeave(e) == [c]
  {
  }

  /** Each escape sequence, after text without a backslash, is decoded to its
      character, and decoding goes on after it: `\n` becomes a newline, `\t` a
      tab, `\"` a double quote and `\'` a single quote. */
  lemma EscapeDecoded(a: string, e: string, c: char, b: string)
    requires '\\' !in a && Escape(e, c)
    ensures DecodeEscapes(a + e + b) == a + [c] + DecodeEscapes(b)
  {
    EscapeLeaves(e, c);
    DecodePasses(a, e, b);
    var r := DecodeEscapes(b);
    assert a + ([c] + r) == a + [c] + r;
  }

  /** So `KEY='a\nb'` stores `a`, a real newline, then `b`: in a single-quoted value
      whose content does not start with `'`, an escape after backslash-free text
      is decoded. */
  lemma SingleQuotedEscapeDecoded(a: string, e: string, c: char, b: string, raw: string)
    requires a != [] && a[0] != '\'' && '\\' !in a && Escape(e, c)
    ensures CleanValue("'" + (a + e + b) + "'", raw) == a + [c] + DecodeEscapes(b)
  {
    var v := a + e + b;
    assert v[0] == a[0];
    SingleQuotedValueDecoded(v, raw);
    EscapeDecoded(a, e, c, b);
  }

  lemma {:induction false} PlainTextKeepsStart(s: string)
    requires forall i :: 0 <= i < |s| ==> s[i] != '\\' && s[i] != '\'' && s[i] != '"'
    ensures StateAfter(s) == Start
    decreases |s|
  {
    if s != [] {
      PlainTextKeepsStart(s[..|s| - 1]);
    }
  }

  /** Without quotes or backslashes before it, the first `#` starts the comment. */
  lemma CommentAtFirstHash(v: string, comment: string)
    requires forall i :: 0 <= i < |v| ==> v[i] != '#' && v[i] != '\\' && v[i] != '\'' && v[i] != '"'
    ensures CommentStart(v + "#" + comment) == |v|
  {
    var text := v + "#" + comment;
    PlainTextKeepsStart(v);
    forall j | 0 <= j < |v| ensures !OpensAt(text, j) {
      assert text[j] == v[j];
    }
    assert text[..|v|] == v;
    assert OpensAt(text, |v|);
  }

  /** A value that does not start with a quote character is not quoted. */
  lemma NotQuoted(s: string)
    requires s != [] && s[0] != '\'' && s[0] != '"'
    ensures !Quoted(s)
  {
    assert s[..1] == [s[0]];
  }

  /** Trimming the right end of a value that starts with a non-space leaves a
      non-empty string that both strips leave alone. */
  lemma RStripStable(v: string)
    requires v != [] && !IsSpace(v[0])
    ensures RStrip(v) != [] && RStrip(v)[0] == v[0]
    ensures Strip(RStrip(v)) == RStrip(v)
  {
    var r := RStrip(v);
    assert r != [] && r[0] == v[0];
    assert LStrip(r) == r;
    assert RStrip(r) == r;
  }

  /** In an unquoted value, the first `#` starts a comment: what precedes it, with
      trailing whitespace removed, is the value. */
  lemma UnquotedCommentCut(v: string, comment: string, raw: string)
    requires v != [] && !IsSpace(v[0])
    requires forall i :: 0 <= i < |v| ==> v[i] != '#' && v[i] != '\\' && v[i] != '\'' && v[i] != '"'
    ensures CleanValue(v + "#" + comment, raw) == RStrip(v)
  {
    var text := v + "#" + comment;
    assert text[0] == v[0];
    NotQuoted(text);
    CommentAtFirstHash(v, comment);
    assert text[..|v|] == v;
    assert StripInlineComment(text) == RStrip(v);
    RStripStable(v);
    NotQuoted(RStrip(v));
  }
}
