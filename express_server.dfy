/** The Express route `GET /api/wallpapers`: read the data module's source text, cut out its
    array literal, rewrite it into JSON text with three global regular-expression replaces,
    parse it, and fall back to the built-in list on every failure. File-system calls and
    `JSON.parse` are inputs. */
module ExpressServer {
  import opened Outcomes
  import opened Seqs
  import opened Text
  import opened Wallpapers

  /** `s.indexOf(c)`. */
  function IndexOf(s: string, c: char): (i: int)
    ensures -1 <= i < |s|
    ensures i == -1 <==> c !in s
    ensures i >= 0 ==> s[i] == c && forall k :: 0 <= k < i ==> s[k] != c
  {
    if c in s then FirstIndex(s, c) else -1
  }

  /** `s.lastIndexOf(c)`. */
  function LastIndexOf(s: string, c: char): (i: int)
    ensures -1 <= i < |s|
    ensures i == -1 <==> c !in s
    ensures i >= 0 ==> s[i] == c && forall k :: i < k < |s| ==> s[k] != c
  {
    if s == [] then -1
    else if s[|s| - 1] == c then |s| - 1
    else
      assert s == s[..|s| - 1] + [s[|s| - 1]];
      LastIndexOf(s[..|s| - 1], c)
  }

  function Clamp(x: int, n: nat): (c: nat)
    ensures c <= n
  {
    if x < 0 then 0 else if x > n then n else x
  }

  /** `s.substring(start, end)`: both bounds clamped to the string, swapped if reversed. */
  function Substring(s: string, start: int, end: int): (r: string)
    ensures exists i, j :: 0 <= i <= j <= |s| && r == s[i..j]
  {
    var a, b := Clamp(start, |s|), Clamp(end, |s|);
    if a <= b then s[a..b] else s[b..a]
  }

  /** `fileContent.substring(fileContent.indexOf('['), fileContent.lastIndexOf(']') + 1)`. */
  function ExtractArray(text: string): (r: string)
    ensures '[' in text && ']' in text && IndexOf(text, '[') < LastIndexOf(text, ']') ==>
      r == text[IndexOf(text, '[')..LastIndexOf(text, ']') + 1] && r[0] == '[' && r[|r| - 1] == ']'
    ensures '[' in text && ']' in text && LastIndexOf(text, ']') < IndexOf(text, '[') ==>
      r == text[LastIndexOf(text, ']') + 1..IndexOf(text, '[')]
    ensures '[' !in text && ']' in text ==> r == text[..LastIndexOf(text, ']') + 1]
    ensures ']' !in text ==> r == text[..if '[' in text then IndexOf(text, '[') else 0]
  {
    Substring(text, IndexOf(text, '['), LastIndexOf(text, ']') + 1)
  }

  /** `.replace(/'/g, '"')`. */
  function ReplaceQuotes(s: string): (r: string)
    ensures |r| == |s|
    ensures forall i :: 0 <= i < |s| ==> r[i] == if s[i] == '\'' then '"' else s[i]
  {
    if s == [] then [] else [if s[0] == '\'' then '"' else s[0]] + ReplaceQuotes(s[1..])
  }

  /** Length of the `\w` run that starts `s`. */
  function WordRun(s: string): (n: nat)
    ensures n <= |s| && forall i :: 0 <= i < n ==> IsWordChar(s[i])
    ensures n == |s| || !IsWordChar(s[n])
  {
    if s != [] && IsWordChar(s[0]) then 1 + WordRun(s[1..]) else 0
  }

  /** A word run followed by a non-word character is measured exactly. */
  lemma {:induction false} WordRunExact(s: string, n: nat)
    requires n <= |s| && forall i :: 0 <= i < n ==> IsWordChar(s[i])
    requires n == |s| || !IsWordChar(s[n])
    ensures WordRun(s) == n
    decreases n
  {
    if n > 0 {
      WordRunExact(s[1..], n - 1);
    }
  }

  /** `s` starts with a match of `,\s*\]` that is `n` characters long. */
  predicate TrailingCommaAt(s: string, n: nat) {
    2 <= n <= |s| && s[0] == ',' && AllSpace(s[1..n - 1]) && s[n - 1] == ']'
  }

  /** Length of the match of `,\s*\]` at the start of `s`, or 0 when there is none. */
  function TrailingCommaMatch(s: string): (n: nat)
    ensures n == 0 || TrailingCommaAt(s, n)
  {
    if s == [] || s[0] != ',' then 0
    else
      var k := 1 + SpaceRun(s[1..]);
      assert s[1..k] == s[1..][..k - 1];
      if k < |s| && s[k] == ']' then k + 1 else 0
  }

  /** What the trailing-comma rewrite never removes: anything but commas and whitespace. */
  predicate KeptByStrip(c: char) {
    c != ',' && !IsSpace(c)
  }

  /** `.replace(/,\s*\]/g, ']')`: scanning left to right, each match is replaced by `]` and
      scanning resumes after it; matches do not overlap. */
  function StripTrailingCommas(s: string): (r: string)
    ensures |r| <= |s|
    ensures Filter(r, KeptByStrip) == Filter(s, KeptByStrip)
    decreases |s|
  {
    if s == [] then []
    else
      var n := TrailingCommaMatch(s);
      if n > 0 then
        var rest := StripTrailingCommas(s[n..]);
        FilterTrailingComma(s, n);
        FilterCons(']', rest, KeptByStrip);
        "]" + rest
      else
        var rest := StripTrailingCommas(s[1..]);
        FilterCons(s[0], s[1..], KeptByStrip);
        FilterCons(s[0], rest, KeptByStrip);
        assert s == [s[0]] + s[1..];
        [s[0]] + rest
  }

  /** A matched `,\s*]` contributes only its bracket to the filtered view. */
  lemma FilterTrailingComma(s: string, n: nat)
    requires TrailingCommaAt(s, n)
    ensures Filter(s, KeptByStrip) == "]" + Filter(s[n..], KeptByStrip)
  {
    var sp, rest := s[1..n - 1], s[n..];
    var tail := [']'] + rest;
    assert s == [','] + (sp + tail);
    FilterCons(',', sp + tail, KeptByStrip);
    FilterAppend(sp, tail, KeptByStrip);
    FilterNone(sp, KeptByStrip);
    FilterCons(']', rest, KeptByStrip);
  }

  /** The converse of `TrailingCommaMatch`: a comma, whitespace and a closing bracket at the
      start of the text are rewritten to the bracket alone, and the scan resumes after them. */
  lemma {:induction false} StripTrailingComma(s: string, n: nat)
    requires TrailingCommaAt(s, n)
    ensures StripTrailingCommas(s) == "]" + StripTrailingCommas(s[n..])
  {
    assert s[1..][..n - 2] == s[1..n - 1];
    assert s[1..][n - 2] == s[n - 1];
    SpaceRunExact(s[1..], n - 2);
  }

  /** Where no `,\s*]` match starts, the first character is copied and the scan moves on by
      one. */
  lemma {:induction false} StripCopyStep(s: string)
    requires s != [] && forall n: nat :: !TrailingCommaAt(s, n)
    ensures StripTrailingCommas(s) == [s[0]] + StripTrailingCommas(s[1..])
  {
  }

  /** A text without commas passes the trailing-comma rewrite unchanged. */
  lemma {:induction false} StripWithoutCommas(s: string)
    requires ',' !in s
    ensures StripTrailingCommas(s) == s
    decreases |s|
  {
    if s != [] {
      StripWithoutCommas(s[1..]);
    }
  }

  /** Bounds of a match of `([{,])\s*(\w+)\s*:` at the start of `s`: the key is
      `s[keyStart..keyEnd]` and the match ends at `matchEnd`. */
  datatype KeyMatch = KeyMatch(keyStart: nat, keyEnd: nat, matchEnd: nat)

  function MatchKey(s: string): (m: Option<KeyMatch>)
    ensures m.Some? ==> 1 <= m.value.keyStart < m.value.keyEnd < m.value.matchEnd <= |s|
  {
    if s == [] || (s[0] != '{' && s[0] != ',') then None
    else if KeyStart(s) < KeyEnd(s) && ColonAt(s) < |s| && s[ColonAt(s)] == ':' then
      Some(KeyMatch(KeyStart(s), KeyEnd(s), ColonAt(s) + 1))
    else None
  }

  /** Where the key would start: after the delimiter and the whitespace that follows it. */
  function KeyStart(s: string): (a: nat)
    requires s != []
    ensures 1 <= a <= |s|
  {
    1 + SpaceRun(s[1..])
  }

  /** Where the key would end: after the word run at `KeyStart(s)`. */
  function KeyEnd(s: string): (b: nat)
    requires s != []
    ensures KeyStart(s) <= b <= |s|
  {
    KeyStart(s) + WordRun(s[KeyStart(s)..])
  }

  /** Where the colon would be: after the whitespace that follows the key. */
  function ColonAt(s: string): (c: nat)
    requires s != []
    ensures KeyEnd(s) <= c <= |s|
  {
    KeyEnd(s) + SpaceRun(s[KeyEnd(s)..])
  }

  /** `s` starts with a match of `([{,])\s*(\w+)\s*:` whose key is `s[a..b]` and whose colon is
      at `c`. */
  predicate KeyAt(s: string, a: nat, b: nat, c: nat) {
    1 <= a < b <= c < |s| && s[c] == ':' && (s[0] == '{' || s[0] == ',') &&
    AllSpace(s[1..a]) && AllSpace(s[b..c]) && forall i :: a <= i < b ==> IsWordChar(s[i])
  }

  /** What the key-quoting rewrite never removes: anything but double quotes and whitespace. */
  predicate KeptByQuoting(c: char) {
    c != '"' && !IsSpace(c)
  }

  /** `.replace(/([{,])\s*(\w+)\s*:/g, '$1"$2":')`: each match becomes its delimiter, the key
      in double quotes and a colon, without the whitespace around the key. */
  function QuoteKeys(s: string): (r: string)
    ensures r == [] <==> s == []
    ensures s != [] ==> r[0] == s[0]
    decreases |s|
  {
    if s == [] then []
    else
      match MatchKey(s)
      case Some(KeyMatch(a, b, c)) => Quoted(s[0], s[a..b]) + QuoteKeys(s[c..])
      case None => [s[0]] + QuoteKeys(s[1..])
  }

  /** The rewrite only inserts double quotes and drops whitespace: every other character is
      kept, in order. */
  lemma {:induction false} QuoteKeysKeepsText(s: string)
    ensures Filter(QuoteKeys(s), KeptByQuoting) == Filter(s, KeptByQuoting)
    decreases |s|
  {
    if s != [] {
      match MatchKey(s)
      case Some(KeyMatch(a, b, c)) =>
        QuoteKeysKeepsText(s[c..]);
        QuoteKeysMatchStep(s, a, b, c);
      case None =>
        QuoteKeysKeepsText(s[1..]);
        QuoteKeysCopyStep(s);
    }
  }

  /** The inductive step for a match at the start of `s`. */
  lemma QuoteKeysMatchStep(s: string, a: nat, b: nat, c: nat)
    requires MatchKey(s) == Some(KeyMatch(a, b, c))
    requires Filter(QuoteKeys(s[c..]), KeptByQuoting) == Filter(s[c..], KeptByQuoting)
    ensures Filter(QuoteKeys(s), KeptByQuoting) == Filter(s, KeptByQuoting)
  {
    MatchKeyBounds(s, a, b, c);
    var rest := QuoteKeys(s[c..]);
    var key := s[a..b];
    assert QuoteKeys(s) == Quoted(s[0], key) + rest;
    assert forall i :: 0 <= i < |key| ==> IsWordChar(key[i]) by {
      forall i | 0 <= i < |key| ensures IsWordChar(key[i]) {
        assert key[i] == s[a + i];
      }
    }
    SplitKeyMatch(s, a, b, c);
    FilterKeyMatch(s[0], s[1..a], key, s[b..c - 1], s[c..]);
    assert Filter(s, KeptByQuoting) == [s[0]] + key + [':'] + Filter(s[c..], KeptByQuoting);
    FilterQuotedKey(s[0], key, rest);
  }

  /** The facts a match at the start of `s` carries, one per piece. */
  lemma MatchKeyBounds(s: string, a: nat, b: nat, c: nat)
    requires MatchKey(s) == Some(KeyMatch(a, b, c))
    ensures 1 <= a < b < c <= |s| && s[c - 1] == ':'
    ensures s[0] == '{' || s[0] == ','
    ensures AllSpace(s[1..a]) && AllSpace(s[b..c - 1])
    ensures forall i :: a <= i < b ==> IsWordChar(s[i])
    ensures KeyAt(s, a, b, c - 1)
  {
    var n1 := SpaceRun(s[1..]);
    assert a == 1 + n1;
    assert s[1..a] == s[1..][..n1];
    var n2 := WordRun(s[a..]);
    assert b == a + n2;
    forall i | a <= i < b ensures IsWordChar(s[i]) {
      assert s[i] == s[a..][i - a];
    }
    var n3 := SpaceRun(s[b..]);
    assert c == b + n3 + 1;
    assert s[b..c - 1] == s[b..][..n3];
  }

  /** The converse of `MatchKeyBounds`: every text that starts with the shape
      `([{,])\s*(\w+)\s*:` is matched, with the key and the match end where the pieces are. */
  lemma {:induction false} MatchKeyFinds(s: string, a: nat, b: nat, c: nat)
    requires KeyAt(s, a, b, c)
    ensures MatchKey(s) == Some(KeyMatch(a, b, c + 1))
  {
    KeyStartAt(s, a);
    assert b < c ==> s[b] == s[b..c][0];
    KeyEndAt(s, a, b);
    assert !IsSpace(s[c]);
    ColonAtIs(s, b, c);
  }

  lemma {:induction false} KeyStartAt(s: string, a: nat)
    requires 1 <= a < |s| && AllSpace(s[1..a]) && IsWordChar(s[a])
    ensures KeyStart(s) == a
  {
    assert s[1..][..a - 1] == s[1..a];
    assert s[1..][a - 1] == s[a];
    SpaceRunExact(s[1..], a - 1);
  }

  lemma {:induction false} KeyEndAt(s: string, a: nat, b: nat)
    requires s != [] && KeyStart(s) == a && a <= b < |s|
    requires forall i :: a <= i < b ==> IsWordChar(s[i])
    requires IsSpace(s[b]) || s[b] == ':'
    ensures KeyEnd(s) == b
  {
    forall i | 0 <= i < b - a ensures IsWordChar(s[a..][i]) {
      assert s[a..][i] == s[a + i];
    }
    assert s[a..][b - a] == s[b];
    WordRunExact(s[a..], b - a);
  }

  lemma {:induction false} ColonAtIs(s: string, b: nat, c: nat)
    requires s != [] && KeyEnd(s) == b && b <= c < |s|
    requires AllSpace(s[b..c]) && !IsSpace(s[c])
    ensures ColonAt(s) == c
  {
    assert s[b..][..c - b] == s[b..c];
    assert s[b..][c - b] == s[c];
    SpaceRunExact(s[b..], c - b);
  }

  /** A key at the start of the text is rewritten to its delimiter, the key in double quotes
      and a colon, and the scan resumes after the colon. */
  lemma {:induction false} QuoteKeysKey(s: string, a: nat, b: nat, c: nat)
    requires KeyAt(s, a, b, c)
    ensures QuoteKeys(s) == Quoted(s[0], s[a..b]) + QuoteKeys(s[c + 1..])
  {
    assert MatchKey(s) == Some(KeyMatch(a, b, c + 1)) by {
      MatchKeyFinds(s, a, b, c);
    }
    QuoteKeysAtMatch(s, a, b, c + 1);
  }

  /** Unfolds `QuoteKeys` at a match. */
  lemma {:induction false} QuoteKeysAtMatch(s: string, a: nat, b: nat, c: nat)
    requires MatchKey(s) == Some(KeyMatch(a, b, c))
    ensures QuoteKeys(s) == Quoted(s[0], s[a..b]) + QuoteKeys(s[c..])
  {
  }

  /** Where no key match starts, the first character is copied and the scan moves on by one. */
  lemma {:induction false} QuoteKeysCopy(s: string)
    requires s != [] && forall a: nat, b: nat, c: nat :: !KeyAt(s, a, b, c)
    ensures QuoteKeys(s) == [s[0]] + QuoteKeys(s[1..])
  {
    if MatchKey(s).Some? {
      var m := MatchKey(s).value;
      MatchKeyBounds(s, m.keyStart, m.keyEnd, m.matchEnd);
    }
  }

  /** The inductive step when no match starts at the head of `s`. */
  lemma QuoteKeysCopyStep(s: string)
    requires s != [] && MatchKey(s).None?
    requires Filter(QuoteKeys(s[1..]), KeptByQuoting) == Filter(s[1..], KeptByQuoting)
    ensures Filter(QuoteKeys(s), KeptByQuoting) == Filter(s, KeptByQuoting)
  {
    var rest := QuoteKeys(s[1..]);
    assert QuoteKeys(s) == [s[0]] + rest;
    FilterCons(s[0], s[1..], KeptByQuoting);
    FilterCons(s[0], rest, KeptByQuoting);
    assert s == [s[0]] + s[1..];
  }

  /** A matched key, `d sp1 key sp2 :`, contributes its delimiter, the key and the colon to
      the filtered view. */
  lemma FilterKeyMatch(d: char, sp1: string, key: string, sp2: string, rest: string)
    requires d == '{' || d == ','
    requires AllSpace(sp1) && AllSpace(sp2)
    requires forall i :: 0 <= i < |key| ==> IsWordChar(key[i])
    ensures Filter([d] + (sp1 + (key + (sp2 + ([':'] + rest)))), KeptByQuoting)
         == [d] + key + [':'] + Filter(rest, KeptByQuoting)
  {
    var x3 := [':'] + rest;
    var x2 := sp2 + x3;
    var x1 := key + x2;
    FilterCons(d, sp1 + x1, KeptByQuoting);
    FilterDropsSpaces(sp1, x1);
    FilterKeepsWord(key, x2);
    FilterDropsSpaces(sp2, x3);
    FilterCons(':', rest, KeptByQuoting);
  }

  lemma SplitKeyMatch(s: string, a: nat, b: nat, c: nat)
    requires 1 <= a < b < c <= |s| && s[c - 1] == ':'
    ensures s == [s[0]] + (s[1..a] + (s[a..b] + (s[b..c - 1] + ([':'] + s[c..]))))
  {
    assert s[c - 1..] == [':'] + s[c..];
    assert s[b..] == s[b..c - 1] + s[c - 1..];
    assert s[a..] == s[a..b] + s[b..];
    assert s[1..] == s[1..a] + s[a..];
    assert s == [s[0]] + s[1..];
  }

  lemma FilterDropsSpaces(sp: string, t: string)
    requires AllSpace(sp)
    ensures Filter(sp + t, KeptByQuoting) == Filter(t, KeptByQuoting)
  {
    FilterAppend(sp, t, KeptByQuoting);
    FilterNone(sp, KeptByQuoting);
  }

  lemma FilterKeepsWord(key: string, t: string)
    requires forall i :: 0 <= i < |key| ==> IsWordChar(key[i])
    ensures Filter(key + t, KeptByQuoting) == key + Filter(t, KeptByQuoting)
  {
    FilterAppend(key, t, KeptByQuoting);
    FilterAll(key, KeptByQuoting);
  }

  /** The rewritten key contributes its delimiter, the key and the colon to the filtered view. */
  lemma FilterQuotedKey(d: char, key: string, rest: string)
    requires d == '{' || d == ','
    requires forall i :: 0 <= i < |key| ==> IsWordChar(key[i])
    ensures Filter(Quoted(d, key) + rest, KeptByQuoting) == [d] + key + [':'] + Filter(rest, KeptByQuoting)
  {
    FilterAppend(Quoted(d, key), rest, KeptByQuoting);
    FilterQuoted(d, key);
  }

  lemma FilterQuoted(d: char, key: string)
    requires d == '{' || d == ','
    requires forall i :: 0 <= i < |key| ==> IsWordChar(key[i])
    ensures Filter(Quoted(d, key), KeptByQuoting) == [d] + key + [':']
  {
    FilterAppend([d, '"'] + key, ['"', ':'], KeptByQuoting);
    FilterAppend([d, '"'], key, KeptByQuoting);
    FilterAll(key, KeptByQuoting);
    FilterPair(d, '"');
    FilterPair('"', ':');
  }

  /** The filtered view of a two-character text. */
  lemma FilterPair(x: char, y: char)
    ensures Filter([x, y], KeptByQuoting)
         == (if KeptByQuoting(x) then [x] else []) + (if KeptByQuoting(y) then [y] else [])
  {
    assert [x, y][1..] == [y];
    assert [y][1..] == [];
  }

  /** What one match is rewritten to: the delimiter, then the key in double quotes and a colon. */
  function Quoted(d: char, key: string): string {
    [d, '"'] + key + ['"', ':']
  }

  /** A text with neither `{` nor `,` passes the key-quoting rewrite unchanged. */
  lemma {:induction false} QuoteKeysWithoutDelimiters(s: string)
    requires '{' !in s && ',' !in s
    ensures QuoteKeys(s) == s
    decreases |s|
  {
    if s != [] {
      QuoteKeysWithoutDelimiters(s[1..]);
    }
  }

  /** The text handed to `JSON.parse`. No single quote survives the rewrite: the first step
      replaces them all and the later steps only insert double quotes or drop commas and
      whitespace. */
  function JsonText(fileContent: string): (c: string)
    ensures '\'' !in c
  {
    var a := ReplaceQuotes(ExtractArray(fileContent));
    var b := StripTrailingCommas(a);
    var c := QuoteKeys(b);
    assert '\'' !in a;
    FilterSameKept(b, a, KeptByStrip, '\'');
    QuoteKeysKeepsText(b);
    FilterSameKept(c, b, KeptByQuoting, '\'');
    c
  }

  /** Outcome of `fs.readFileSync`. */
  datatype ReadOutcome = FileText(text: string) | ReadFailed

  /** What `res.json(...)` sends: the status and the array of records. */
  datatype Reply = Reply(status: int, body: seq<Wallpaper>)

  /** The `/api/wallpapers` handler. `fileExists` is `fs.existsSync(...)`, `read` the outcome
      of reading the file, and `parse` stands for `JSON.parse` (None: it threw). */
  function GetWallpapers(fileExists: bool, read: ReadOutcome, parse: string -> Option<seq<Wallpaper>>): (r: Reply)
    ensures r.status == 200
    ensures !fileExists ==> r.body == FallbackWallpapers
    ensures fileExists && read.ReadFailed? ==> r.body == FallbackWallpapers
    ensures fileExists && read.FileText? && parse(JsonText(read.text)).None? ==> r.body == FallbackWallpapers
    ensures fileExists && read.FileText? && parse(JsonText(read.text)).Some? ==>
      r.body == parse(JsonText(read.text)).value
  {
    if !fileExists then Reply(200, FallbackWallpapers)
    else
      match read
      case ReadFailed => Reply(200, FallbackWallpapers)
      case FileText(text) =>
        match parse(JsonText(text))
        case Some(wallpapers) => Reply(200, wallpapers)
        case None => Reply(200, FallbackWallpapers)
  }
}
