/**
 * The line-based bundler (`src/cmd/bundle.rs`; the same `Bundler` is kept
 * in `src/cmd/bundle_problem.rs`). It copies a contest solution line by line,
 * collects the library modules the solution imports together with everything
 * those modules import in turn, and then inlines just those modules under one
 * `mod algorist`, rewriting `crate::` imports to climb out of the nesting.
 *
 * The file system is a map from path to file content. The regular
 * expressions are abstract line matchers; `regex_line`, which builds their
 * patterns, is modelled as the string transform it is.
 */
module LineBundler {
  import opened Wrappers

  // ---------------------------------------------------------------------
  // Strings

  /** `str::replace`: every non-overlapping occurrence of `pat`, leftmost first, becomes `rep`. */
  function ReplaceAll(s: string, pat: string, rep: string): string
    requires |pat| > 0
    decreases |s|
  {
    if |s| < |pat| then s
    else if s[..|pat|] == pat then rep + ReplaceAll(s[|pat|..], pat, rep)
    else [s[0]] + ReplaceAll(s[1..], pat, rep)
  }

  predicate OccursAt(s: string, pat: string, i: nat) {
    i + |pat| <= |s| && s[i..i + |pat|] == pat
  }

  ghost predicate Occurs(s: string, pat: string) {
    exists i: nat :: OccursAt(s, pat, i)
  }

  /** Without an occurrence of `pat`, replacing changes nothing. */
  lemma {:induction false} ReplaceAllAbsent(s: string, pat: string, rep: string)
    requires |pat| > 0 && !Occurs(s, pat)
    ensures ReplaceAll(s, pat, rep) == s
    decreases |s|
  {
    if |s| >= |pat| {
      assert !OccursAt(s, pat, 0);
      assert s[0..|pat|] == s[..|pat|];
      if Occurs(s[1..], pat) {
        var i: nat :| OccursAt(s[1..], pat, i);
        assert s[1..][i..i + |pat|] == s[i + 1..i + 1 + |pat|];
        assert OccursAt(s, pat, i + 1);
      }
      ReplaceAllAbsent(s[1..], pat, rep);
    }
  }

  /** A pattern whose first character is not in `s` does not occur in it. */
  lemma StartAbsent(s: string, pat: string)
    requires |pat| > 0 && pat[0] !in s
    ensures !Occurs(s, pat)
  {
    forall i: nat
      ensures !OccursAt(s, pat, i)
    {
      if i + |pat| <= |s| {
        assert s[i..i + |pat|][0] == s[i];
      }
    }
  }

  /** Replacing a single character by text without it leaves none of it. */
  lemma {:induction false} ReplaceAllCharGone(s: string, c: char, rep: string)
    requires c !in rep
    ensures c !in ReplaceAll(s, [c], rep)
    decreases |s|
  {
    if |s| >= 1 {
      ReplaceAllCharGone(s[1..], c, rep);
      if s[..1] != [c] {
        assert s[0] != c;
      }
    }
  }

  const RegexSuffix: string := "(?://.*)?$"

  /**
   * `regex_line`: the pattern for a whole line. A double space becomes
   * `\s+`, then every remaining space `\s*`, and a trailing comment is allowed.
   */
  function RegexLine(s: string): (r: string)
    ensures |r| >= 1 + |RegexSuffix| && r[0] == '^' && r[|r| - |RegexSuffix|..] == RegexSuffix
  {
    var r := "^" + ReplaceAll(ReplaceAll(s, "  ", @"\s+"), " ", @"\s*") + RegexSuffix;
    assert r[|r| - |RegexSuffix|..] == RegexSuffix;
    r
  }

  /**
   * The pattern has no literal space left; text that had no space in it
   * comes through unchanged.
   */
  lemma RegexLineShape(s: string)
    ensures ' ' !in RegexLine(s)
    ensures ' ' !in s ==> RegexLine(s) == "^" + s + RegexSuffix
  {
    var once := ReplaceAll(s, "  ", @"\s+");
    ReplaceAllCharGone(once, ' ', @"\s*");
    var r := RegexLine(s);
    assert r == "^" + ReplaceAll(once, " ", @"\s*") + RegexSuffix;
    if ' ' !in s {
      StartAbsent(s, "  ");
      ReplaceAllAbsent(s, "  ", @"\s+");
      StartAbsent(s, " ");
      ReplaceAllAbsent(s, " ", @"\s*");
    }
  }

  /** The comment pattern: a blank line or a comment alone. */
  lemma RegexLineComment()
    ensures RegexLine(" ") == @"^\s*(?://.*)?$"
  {
    assert ReplaceAll(" ", "  ", @"\s+") == " ";
    assert ReplaceAll(" ", " ", @"\s*") == @"\s*" + ReplaceAll("", " ", @"\s*");
  }

  // ---------------------------------------------------------------------
  // Reading lines

  /** The length of the first line of `s`, its newline included when there is one. */
  function LineLen(s: string): (k: nat)
    requires |s| > 0
    ensures 1 <= k <= |s|
    ensures forall i :: 0 <= i < k - 1 ==> s[i] != '\n'
    ensures k < |s| ==> s[k - 1] == '\n'
    decreases |s|
  {
    if s[0] == '\n' || |s| == 1 then 1 else 1 + LineLen(s[1..])
  }

  /** What successive `read_line` calls give: the lines, each with its newline, the last maybe without. */
  function ReadLines(s: string): seq<string>
    decreases |s|
  {
    if |s| == 0 then [] else [s[..LineLen(s)]] + ReadLines(s[LineLen(s)..])
  }

  function Concat(ls: seq<string>): string {
    if |ls| == 0 then [] else ls[0] + Concat(ls[1..])
  }

  /**
   * The lines put back together are the content; no line is empty, and every
   * line but the last ends with its newline and has no other.
   */
  lemma ReadLinesSplit(s: string)
    ensures Concat(ReadLines(s)) == s
    ensures forall i :: 0 <= i < |ReadLines(s)| ==> |ReadLines(s)[i]| > 0
    ensures forall i :: 0 <= i < |ReadLines(s)| - 1 ==> EndsInNewline(ReadLines(s)[i])
  {
    ReadLinesConcat(s);
    ReadLinesShape(s);
  }

  predicate EndsInNewline(line: string) {
    |line| > 0 && line[|line| - 1] == '\n'
  }

  lemma {:induction false} ReadLinesConcat(s: string)
    ensures Concat(ReadLines(s)) == s
    decreases |s|
  {
    if s == [] {
      assert ReadLines(s) == [];
    } else {
      var k := LineLen(s);
      ReadLinesFirst(s);
      ReadLinesConcat(s[k..]);
      TakeDrop(s, k);
    }
  }

  lemma TakeDrop(s: string, k: nat)
    requires k <= |s|
    ensures s[..k] + s[k..] == s
  {
  }

  /** The first line read, and the lines after it. */
  lemma ReadLinesFirst(s: string)
    requires |s| > 0
    ensures |ReadLines(s)| > 0 && ReadLines(s)[0] == s[..LineLen(s)]
    ensures ReadLines(s)[1..] == ReadLines(s[LineLen(s)..])
    ensures Concat(ReadLines(s)) == s[..LineLen(s)] + Concat(ReadLines(s[LineLen(s)..]))
  {
    var ls := ReadLines(s);
    assert ls == [s[..LineLen(s)]] + ReadLines(s[LineLen(s)..]);
    assert ls[1..] == ReadLines(s[LineLen(s)..]);
  }

  lemma {:induction false} ReadLinesShape(s: string)
    ensures forall i :: 0 <= i < |ReadLines(s)| ==> |ReadLines(s)[i]| > 0
    ensures forall i :: 0 <= i < |ReadLines(s)| - 1 ==> EndsInNewline(ReadLines(s)[i])
    decreases |s|
  {
    if |s| > 0 {
      var k := LineLen(s);
      var ls := ReadLines(s);
      var tail := ReadLines(s[k..]);
      ReadLinesShape(s[k..]);
      assert ls == [s[..k]] + tail;
      forall i | 0 <= i < |ls|
        ensures |ls[i]| > 0 && (i < |ls| - 1 ==> EndsInNewline(ls[i]))
      {
        if i == 0 {
          if |ls| >= 2 {
            assert |s[k..]| > 0;
          }
        } else {
          assert ls[i] == tail[i - 1];
        }
      }
    }
  }

  /** `line.pop()` as written: drops the last character, newline or not. */
  function PopLast(line: string): (r: string)
    ensures |line| > 0 ==> r + [line[|line| - 1]] == line
    ensures |line| == 0 ==> r == line
  {
    if |line| == 0 then line else line[..|line| - 1]
  }

  /** Drops the newline that ends a line read by `read_line`, if it has one. */
  function StripNewline(line: string): (r: string)
    ensures (|line| > 0 && line[|line| - 1] == '\n' && line == r + "\n") || r == line
  {
    if |line| > 0 && line[|line| - 1] == '\n' then line[..|line| - 1] else line
  }

  /**
   * How a line read by `read_line` loses its end before it is matched:
   * `Pop` is `line.pop()` as the source writes it, `Strip` drops only a
   * newline, which is what the source means by it.
   */
  datatype LineEnd = Pop | Strip

  function Trim(e: LineEnd, line: string): string {
    match e
    case Pop => PopLast(line)
    case Strip => StripNewline(line)
  }

  /** Both ways of trimming give the same line. */
  ghost predicate EndsAlike(lines: seq<string>) {
    forall i :: 0 <= i < |lines| ==> Trim(Pop, lines[i]) == Trim(Strip, lines[i])
  }

  /** Content that is empty or ends with a newline reads as lines that trim alike. */
  lemma {:induction false} TrimAgrees(s: string)
    requires |s| == 0 || s[|s| - 1] == '\n'
    ensures EndsAlike(ReadLines(s))
    decreases |s|
  {
    if s != [] {
      var k := LineLen(s);
      ReadLinesFirst(s);
      FirstLineEnds(s);
      TrimNewline(s[..k]);
      if k < |s| {
        assert s[k..][|s[k..]| - 1] == s[|s| - 1];
      }
      TrimAgrees(s[k..]);
      EndsAlikeCons(ReadLines(s));
    }
  }

  /** In content ending with a newline, the first line read ends with one. */
  lemma FirstLineEnds(s: string)
    requires |s| > 0 && s[|s| - 1] == '\n'
    ensures EndsInNewline(s[..LineLen(s)])
  {
    var k := LineLen(s);
    assert s[..k][k - 1] == s[k - 1];
  }

  lemma EndsAlikeCons(ls: seq<string>)
    requires |ls| > 0 && Trim(Pop, ls[0]) == Trim(Strip, ls[0]) && EndsAlike(ls[1..])
    ensures EndsAlike(ls)
  {
    forall i | 1 <= i < |ls|
      ensures Trim(Pop, ls[i]) == Trim(Strip, ls[i])
    {
      assert ls[i] == ls[1..][i - 1];
    }
  }

  lemma TrimNewline(line: string)
    requires EndsInNewline(line)
    ensures Trim(Pop, line) == Trim(Strip, line)
  {
  }

  /** A final line without a newline loses its last character to `pop`. */
  lemma PopDropsLastCharacter()
    ensures ReadLines("}") == ["}"]
    ensures PopLast(ReadLines("}")[0]) == ""
    ensures StripNewline(ReadLines("}")[0]) == "}"
  {
    assert LineLen("}") == 1;
    assert "}"[..1] == "}" && "}"[1..] == "";
    assert ReadLines("") == [];
  }

  /**
   * Stripping only the newline agrees with `pop` on every line that has one,
   * which is every line but possibly the last, and keeps the final line whole.
   */
  lemma StripNewlineAgrees(s: string)
    ensures forall i :: 0 <= i < |ReadLines(s)| - 1 ==> StripNewline(ReadLines(s)[i]) == PopLast(ReadLines(s)[i])
    ensures forall i :: 0 <= i < |ReadLines(s)| ==> StripNewline(ReadLines(s)[i]) + (if i < |ReadLines(s)| - 1 || s[|s| - 1] == '\n' then "\n" else "") == ReadLines(s)[i]
  {
    ReadLinesShape(s);
    var ls := ReadLines(s);
    if |ls| > 0 {
      LastLineEnd(s);
    }
  }

  /** The last line ends where the content does. */
  lemma {:induction false} LastLineEnd(s: string)
    requires |ReadLines(s)| > 0
    ensures |s| > 0 && |ReadLines(s)[|ReadLines(s)| - 1]| > 0
    ensures ReadLines(s)[|ReadLines(s)| - 1][|ReadLines(s)[|ReadLines(s)| - 1]| - 1] == s[|s| - 1]
    decreases |s|
  {
    var k := LineLen(s);
    if k < |s| {
      LastLineEnd(s[k..]);
      assert ReadLines(s)[1..] == ReadLines(s[k..]);
    } else {
      assert s[k..] == [];
    }
  }

  /** `BufRead::lines`: each line without its `\n` or `\r\n`. */
  function StripEol(line: string): string {
    if |line| >= 2 && line[|line| - 2..] == "\r\n" then line[..|line| - 2]
    else if |line| >= 1 && line[|line| - 1] == '\n' then line[..|line| - 1]
    else line
  }

  function LinesOf(s: string): seq<string> {
    var ls := ReadLines(s);
    seq(|ls|, i requires 0 <= i < |ls| => StripEol(ls[i]))
  }

  // ---------------------------------------------------------------------
  // Module paths

  /** `str::split("::")`. */
  function Split(s: string): (r: seq<string>)
    ensures |r| >= 1
    decreases |s|
  {
    if |s| == 0 then [""]
    else if |s| >= 2 && s[..2] == "::" then [""] + Split(s[2..])
    else var t := Split(s[1..]); [[s[0]] + t[0]] + t[1..]
  }

  /** `join("::")`. */
  function Join(parts: seq<string>): string
    requires |parts| >= 1
  {
    if |parts| == 1 then parts[0] else parts[0] + "::" + Join(parts[1..])
  }

  /** Splitting at `::` and joining again gives the path back. */
  lemma {:induction false} JoinSplit(s: string)
    ensures Join(Split(s)) == s
    decreases |s|
  {
    if |s| > 0 {
      if |s| >= 2 && s[..2] == "::" {
        var t := Split(s[2..]);
        assert ([""] + t)[1..] == t;
        JoinSplit(s[2..]);
        TakeDrop(s, 2);
      } else {
        var t := Split(s[1..]);
        JoinSplit(s[1..]);
        TakeDrop(s, 1);
        assert s[..1] == [s[0]];
        if |t| > 1 {
          assert ([[s[0]] + t[0]] + t[1..])[1..] == t[1..];
        }
      }
    }
  }

  /** No two entries are equal. */
  ghost predicate NoRepeats(s: seq<string>) {
    forall i, j :: 0 <= i < j < |s| ==> s[i] != s[j]
  }

  function AsSet(s: seq<string>): set<string> {
    set x | x in s
  }

  lemma EntryInSet(s: seq<string>, j: nat)
    requires j < |s|
    ensures {s[j]} <= AsSet(s)
  {
  }

  /** What a sequence holds, its extensions hold. */
  lemma PrefixKeeps(a: seq<string>, b: seq<string>)
    requires a <= b
    ensures forall x :: x in a ==> x in b
  {
    forall x | x in a
      ensures x in b
    {
      var i :| 0 <= i < |a| && a[i] == x;
      assert b[i] == x;
    }
  }

  lemma PrefixTrans(a: seq<string>, b: seq<string>, c: seq<string>)
    requires a <= b && b <= c
    ensures a <= c
  {
    assert b[..|a|] == a;
    assert c[..|b|] == b;
    assert c[..|a|] == c[..|b|][..|a|];
  }

  /** Every entry of `xs` is in `allow`. */
  ghost predicate AllIn(xs: seq<string>, allow: seq<string>) {
    forall x :: x in xs ==> x in allow
  }

  /** One more entry allowed, in a longer `allow`. */
  lemma AllInGrows(xs: seq<string>, j: nat, entry: seq<string>, before: seq<string>, after: seq<string>)
    requires j < |xs| && AllIn(xs[..j], before) && entry <= before && before <= after && xs[j] in after
    ensures AllIn(xs[..j + 1], after) && entry <= after
  {
    PrefixKeeps(before, after);
    PrefixTrans(entry, before, after);
    assert xs[..j + 1] == xs[..j] + [xs[j]];
  }

  /** Taking away more leaves no more, and strictly less when one more element was taken. */
  lemma DifferenceShrinks(c: set<string>, a: set<string>, b: set<string>, x: string)
    requires a <= b
    ensures |c - b| <= |c - a|
    ensures x in c && x !in a && x in b ==> |c - b| < |c - a|
  {
    var big := c - a;
    var small := c - b;
    assert small <= big;
    assert big == small + (big - small);
    assert small * (big - small) == {};
    if x in c && x !in a && x in b {
      assert x in big - small;
    }
  }

  // ---------------------------------------------------------------------
  // Line matchers

  /** The captures of `RE_USE_CRATE`: `use {prefix}crate::{submod}::{postfix}`. */
  datatype UseCrate = UseCrate(prefix: string, submod: string, postfix: string)

  /**
   * What the bundler's regular expressions report on one line. `comment`,
   * `warn` and `allowDeadCode` are `RE_COMMENT`, `RE_WARN` and
   * `RE_ALLOW_DEAD_CODE`; the others give the named captures when they match.
   */
  datatype Matchers = Matchers(
    comment: string -> bool,
    warn: string -> bool,
    allowDeadCode: string -> bool,
    cfgTest: string -> bool,
    useMain: string -> Option<string>,
    useCrate: string -> Option<UseCrate>,
    macroImpl: string -> Option<string>,
    modDecl: string -> Option<string>)

  /** `is_ignorable`: a blank or comment-only line, `#![warn(..`, or `#[allow(dead_code)]`. */
  predicate IsIgnorable(m: Matchers, line: string) {
    m.comment(line) || m.warn(line) || m.allowDeadCode(line)
  }

  /** The `use crate::` line as rewritten at nesting level `lvl`. */
  function UseRewrite(u: UseCrate, lvl: nat): string {
    "use " + u.prefix + Repeat("super::", lvl) + u.submod + "::" + u.postfix
  }

  function Repeat(s: string, n: nat): (r: string)
    ensures |r| == n * |s|
  {
    if n == 0 then "" else s + Repeat(s, n - 1)
  }

  /**
   * On a line spelled exactly `use {prefix}crate::{submod}::{postfix}`, the
   * rewrite replaces `crate::` by `lvl` hops of `super::` and keeps the rest.
   */
  lemma UseRewriteHops(u: UseCrate, lvl: nat, line: string)
    requires line == "use " + u.prefix + "crate::" + u.submod + "::" + u.postfix
    ensures var k := 4 + |u.prefix|;
      UseRewrite(u, lvl) == line[..k] + Repeat("super::", lvl) + line[k + 7..]
  {
    var k := 4 + |u.prefix|;
    assert line[..k] == "use " + u.prefix;
    assert line[k + 7..] == u.submod + "::" + u.postfix;
  }

  /** A `$crate` macro `impl` as rewritten: it goes through the wrapper module. */
  function MacroRewrite(content: string): string {
    "impl crate::algorist::" + content
  }

  // ---------------------------------------------------------------------
  // Files

  /** The length of the longest path in the file system. */
  ghost function MaxKeyLen(ks: set<string>): (r: nat)
    ensures forall k :: k in ks ==> |k| <= r
    decreases ks
  {
    if ks == {} then 0
    else
      var k :| k in ks;
      var rest := MaxKeyLen(ks - {k});
      if |k| > rest then |k| else rest
  }

  /** `mod_reader`: `src/{p}.rs`, else `src/{p}/mod.rs`, else an error naming both. */
  function ModReader(fs: map<string, string>, p: string): (r: Result<string, string>)
    ensures r.Ok? <==> "src/" + p + ".rs" in fs || "src/" + p + "/mod.rs" in fs
    ensures "src/" + p + ".rs" in fs ==> r == Ok(fs["src/" + p + ".rs"])
    ensures r.Err? ==> r.error == "Error: file not found: src/" + p + ".rs or src/" + p + "/mod.rs"
  {
    if "src/" + p + ".rs" in fs then Ok(fs["src/" + p + ".rs"])
    else if "src/" + p + "/mod.rs" in fs then Ok(fs["src/" + p + "/mod.rs"])
    else Err("Error: file not found: src/" + p + ".rs or src/" + p + "/mod.rs")
  }

  /** A module that has a file has a path shorter than the longest file path. */
  lemma ModReaderBound(fs: map<string, string>, p: string)
    requires ModReader(fs, p).Ok?
    ensures |p| + 7 <= MaxKeyLen(fs.Keys)
    ensures exists k :: k in fs && ModReader(fs, p).value == fs[k]
  {
    if "src/" + p + ".rs" in fs {
      assert |"src/" + p + ".rs"| == |p| + 7;
    } else {
      assert |"src/" + p + "/mod.rs"| == |p| + 11;
    }
  }

  // ---------------------------------------------------------------------
  // What the bundler writes

  /** `Result` of a tail, with `acc` written before it. */
  function Prepend(acc: seq<string>, r: Result<seq<string>, string>): Result<seq<string>, string> {
    match r
    case Ok(v) => Ok(acc + v)
    case Err(e) => Err(e)
  }

  lemma PrependPrepend(a: seq<string>, b: seq<string>, r: Result<seq<string>, string>)
    ensures Prepend(a, Prepend(b, r)) == Prepend(a + b, r)
  {
    if r.Ok? {
      assert a + (b + r.value) == (a + b) + r.value;
    }
  }

  lemma PrependNothing(r: Result<seq<string>, string>)
    ensures Prepend([], r) == r
  {
    if r.Ok? {
      assert [] + r.value == r.value;
    }
  }

  lemma Regroup(a: seq<string>, h: seq<string>, b: seq<string>, c: seq<string>)
    ensures a + h + b + c == a + (h + b + c)
  {
  }

  lemma Assoc(a: seq<string>, b: seq<string>, c: seq<string>)
    ensures a + b + c == a + (b + c)
  {
  }

  lemma PrependOk(acc: seq<string>)
    ensures Prepend(acc, Ok([])) == Ok(acc)
  {
    assert acc + [] == acc;
  }

  /** `binrs` on one line read: blank lines kept as read, ignorable lines dropped, the rest trimmed. */
  function BinLine(m: Matchers, e: LineEnd, raw: string): seq<string> {
    if raw == "\n" then [raw]
    else if IsIgnorable(m, Trim(e, raw)) then []
    else [Trim(e, raw)]
  }

  /** What `binrs` writes for the lines read. */
  function BinOut(m: Matchers, e: LineEnd, lines: seq<string>): seq<string> {
    if |lines| == 0 then [] else BinOut(m, e, lines[..|lines| - 1]) + BinLine(m, e, lines[|lines| - 1])
  }

  lemma BinOutStep(m: Matchers, e: LineEnd, lines: seq<string>, i: nat)
    requires i < |lines|
    ensures BinOut(m, e, lines[..i + 1]) == BinOut(m, e, lines[..i]) + BinLine(m, e, lines[i])
  {
    assert lines[..i + 1][..i] == lines[..i];
  }

  /** On lines that trim alike, `binrs` writes the same either way. */
  lemma {:induction false} BinOutAgrees(m: Matchers, lines: seq<string>)
    requires EndsAlike(lines)
    ensures BinOut(m, Pop, lines) == BinOut(m, Strip, lines)
    decreases |lines|
  {
    if |lines| > 0 {
      var n := |lines| - 1;
      EndsAlikePrefix(lines, n);
      BinOutAgrees(m, lines[..n]);
      BinLineAgrees(m, lines[n]);
    }
  }

  lemma EndsAlikePrefix(lines: seq<string>, n: nat)
    requires EndsAlike(lines) && n <= |lines|
    ensures EndsAlike(lines[..n])
  {
    forall i | 0 <= i < n
      ensures Trim(Pop, lines[..n][i]) == Trim(Strip, lines[..n][i])
    {
      assert lines[..n][i] == lines[i];
    }
  }

  lemma BinLineAgrees(m: Matchers, raw: string)
    requires Trim(Pop, raw) == Trim(Strip, raw)
    ensures BinLine(m, Pop, raw) == BinLine(m, Strip, raw)
  {
  }

  /**
   * A solution whose last line has no newline and reads as a line that is
   * not ignorable, such as a final `}`, loses that line's last character to
   * `pop`; stripping keeps it.
   */
  lemma PopLosesFinalBrace(m: Matchers)
    requires !IsIgnorable(m, "}")
    ensures BinOut(m, Strip, ReadLines("}")) == ["}"]
    ensures BinOut(m, Pop, ReadLines("}")) != ["}"]
  {
    PopDropsLastCharacter();
    assert ReadLines("}")[..0] == [];
  }

  /** A line `binrs` keeps: a blank line as read, any other trimmed. */
  function KeptLine(e: LineEnd, raw: string): string {
    if raw == "\n" then raw else Trim(e, raw)
  }

  /** Every line read, each as `KeptLine` gives it, in order. */
  function KeptLines(e: LineEnd, lines: seq<string>): (r: seq<string>)
    ensures |r| == |lines|
    ensures forall i :: 0 <= i < |lines| ==> r[i] == KeptLine(e, lines[i])
  {
    if |lines| == 0 then [] else KeptLines(e, lines[..|lines| - 1]) + [KeptLine(e, lines[|lines| - 1])]
  }

  /** Without ignorable lines, `binrs` writes every line read, in order and unchanged but for its end. */
  lemma {:induction false} BinOutKeepsLines(m: Matchers, e: LineEnd, lines: seq<string>)
    requires forall i :: 0 <= i < |lines| ==> !IsIgnorable(m, Trim(e, lines[i]))
    ensures BinOut(m, e, lines) == KeptLines(e, lines)
    decreases |lines|
  {
    if |lines| > 0 {
      var n := |lines| - 1;
      BinOutKeepsLines(m, e, lines[..n]);
      assert BinLine(m, e, lines[n]) == [KeptLine(e, lines[n])];
    }
  }

  /** The module a copied solution line imports as `use algorist::X::..`, if any. */
  function MainImport(m: Matchers, e: LineEnd, raw: string): Option<string> {
    if raw == "\n" || IsIgnorable(m, Trim(e, raw)) then None else m.useMain(Trim(e, raw))
  }

  /** Every module the copied solution lines import from the library. */
  ghost function MainImports(m: Matchers, e: LineEnd, lines: seq<string>): set<string> {
    set raw | raw in lines && MainImport(m, e, raw).Some? :: MainImport(m, e, raw).value
  }

  /** A solution line copied by `binrs` that imports `algorist::X` has `X` allowed. */
  predicate UsesAllowed(m: Matchers, e: LineEnd, raw: string, allow: seq<string>) {
    MainImport(m, e, raw).None? || MainImport(m, e, raw).value in allow
  }

  /** Every solution line in `lines` has its `algorist::` module allowed. */
  ghost predicate AllUsesAllowed(m: Matchers, e: LineEnd, lines: seq<string>, allow: seq<string>) {
    forall l :: l in lines ==> UsesAllowed(m, e, l, allow)
  }

  /** One more line handled, with a longer `allow`. */
  lemma UsesAllowedGrows(m: Matchers, e: LineEnd, lines: seq<string>, i: nat, entry: seq<string>, before: seq<string>, after: seq<string>)
    requires i < |lines| && AllUsesAllowed(m, e, lines[..i], before) && entry <= before && before <= after
    requires UsesAllowed(m, e, lines[i], after)
    ensures AllUsesAllowed(m, e, lines[..i + 1], after) && entry <= after
  {
    PrefixKeeps(before, after);
    PrefixTrans(entry, before, after);
    assert lines[..i + 1] == lines[..i] + [lines[i]];
  }

  /** The submodules `extend_allow` collects: each `use crate::X::..` line's `X`, up to the first `#[cfg(test)]`. */
  function SubmodulesOf(m: Matchers, lines: seq<string>): seq<string> {
    if |lines| == 0 || m.cfgTest(lines[0]) then []
    else (if m.useCrate(lines[0]).Some? then [m.useCrate(lines[0]).value.submod] else []) + SubmodulesOf(m, lines[1..])
  }

  /** Lines after the first `#[cfg(test)]` are never scanned. */
  lemma {:induction false} SubmodulesStopAtTests(m: Matchers, before: seq<string>, marker: string, after: seq<string>)
    requires m.cfgTest(marker)
    ensures SubmodulesOf(m, before + [marker] + after) == SubmodulesOf(m, before + [marker])
    decreases |before|
  {
    if |before| > 0 {
      assert (before + [marker] + after)[1..] == before[1..] + [marker] + after;
      assert (before + [marker])[1..] == before[1..] + [marker];
      SubmodulesStopAtTests(m, before[1..], marker, after);
    } else {
      assert (before + [marker] + after)[0] == marker;
    }
  }

  /** Every collected submodule comes from a `use crate::` line. */
  lemma {:induction false} SubmodulesFromLines(m: Matchers, lines: seq<string>, s: string)
    requires s in SubmodulesOf(m, lines)
    ensures exists l :: l in lines && m.useCrate(l).Some? && m.useCrate(l).value.submod == s
    decreases |lines|
  {
    if m.useCrate(lines[0]).None? || s != m.useCrate(lines[0]).value.submod {
      SubmodulesFromLines(m, lines[1..], s);
      var l :| l in lines[1..] && m.useCrate(l).Some? && m.useCrate(l).value.submod == s;
      assert l in lines;
    } else {
      assert lines[0] in lines;
    }
  }

  /**
   * What `modrs` writes for module `name` at `path` and level `lvl`: nothing
   * for a module outside `allow` (its file is not even looked for), otherwise
   * the module's lines inside `pub mod name { .. }`.
   */
  function ModOut(fs: map<string, string>, m: Matchers, e: LineEnd, allow: seq<string>, name: string, path: string, lvl: nat): Result<seq<string>, string>
    decreases MaxKeyLen(fs.Keys) - |path|, 1, 0
  {
    if ReplaceAll(path, "/", "::") !in allow then Ok([])
    else
      match ModReader(fs, path)
      case Err(e) => Err(e)
      case Ok(c) =>
        ModReaderBound(fs, path);
        var body := ModLinesOut(fs, m, e, allow, ReadLines(c), path, lvl);
        if body.Err? then Err(body.error) else Ok(["pub mod " + name + " {"] + body.value + ["}"])
  }

  /**
   * What `modrs` writes for the lines of the module at `path`: stops at
   * `#[cfg(test)]`, rewrites `crate::` imports and `$crate` impls, and
   * expands nested modules one level deeper.
   */
  function ModLinesOut(fs: map<string, string>, m: Matchers, e: LineEnd, allow: seq<string>, lines: seq<string>, path: string, lvl: nat): Result<seq<string>, string>
    requires |path| + 7 <= MaxKeyLen(fs.Keys)
    decreases MaxKeyLen(fs.Keys) - |path|, 0, |lines|
  {
    if |lines| == 0 then Ok([])
    else
      var line := Trim(e, lines[0]);
      var rest := ModLinesOut(fs, m, e, allow, lines[1..], path, lvl);
      if IsIgnorable(m, line) then rest
      else if m.cfgTest(line) then Ok([])
      else if IsModDecl(m, line) then
        var c := m.modDecl(line).value;
        var child := ModOut(fs, m, e, allow, c, path + "/" + c, lvl + 1);
        if child.Err? then child else Prepend(child.value, rest)
      else Prepend([Rewritten(m, line, lvl)], rest)
  }

  /** A module outside `allow` writes nothing and cannot fail, whether or not its file exists. */
  lemma PrunedModuleSilent(fs: map<string, string>, m: Matchers, e: LineEnd, allow: seq<string>, name: string, path: string, lvl: nat)
    requires ReplaceAll(path, "/", "::") !in allow
    ensures ModOut(fs, m, e, allow, name, path, lvl) == Ok([])
  {
  }

  /** Everything from the first `#[cfg(test)]` line on is dropped. */
  lemma {:induction false} ModLinesStopAtTests(fs: map<string, string>, m: Matchers, e: LineEnd, allow: seq<string>,
                                               before: seq<string>, marker: string, after: seq<string>, path: string, lvl: nat)
    requires |path| + 7 <= MaxKeyLen(fs.Keys)
    requires !IsIgnorable(m, Trim(e, marker)) && m.cfgTest(Trim(e, marker))
    ensures ModLinesOut(fs, m, e, allow, before + [marker] + after, path, lvl) == ModLinesOut(fs, m, e, allow, before + [marker], path, lvl)
    decreases |before|
  {
    var long := before + [marker] + after;
    var short := before + [marker];
    if |before| > 0 {
      assert long[0] == before[0] && short[0] == before[0];
      assert long[1..] == before[1..] + [marker] + after;
      assert short[1..] == before[1..] + [marker];
      ModLinesStopAtTests(fs, m, e, allow, before[1..], marker, after, path, lvl);
      ModLinesSameHead(fs, m, e, allow, long, short, path, lvl);
    } else {
      assert long[0] == marker && short[0] == marker;
    }
  }

  /** Lines with the same first line and tails written alike are written alike. */
  lemma ModLinesSameHead(fs: map<string, string>, m: Matchers, e: LineEnd, allow: seq<string>, a: seq<string>, b: seq<string>, path: string, lvl: nat)
    requires |path| + 7 <= MaxKeyLen(fs.Keys)
    requires |a| > 0 && |b| > 0 && a[0] == b[0]
    requires ModLinesOut(fs, m, e, allow, a[1..], path, lvl) == ModLinesOut(fs, m, e, allow, b[1..], path, lvl)
    ensures ModLinesOut(fs, m, e, allow, a, path, lvl) == ModLinesOut(fs, m, e, allow, b, path, lvl)
  {
  }

  /** A `mod m;` line that is neither a `crate::` import nor a `$crate` impl. */
  predicate IsModDecl(m: Matchers, line: string) {
    m.useCrate(line).None? && m.macroImpl(line).None? && m.modDecl(line).Some?
  }

  /** A module line as `modrs` writes it: imports and impls rewritten, anything else unchanged. */
  function Rewritten(m: Matchers, line: string, lvl: nat): string {
    if m.useCrate(line).Some? then UseRewrite(m.useCrate(line).value, lvl)
    else if m.macroImpl(line).Some? then MacroRewrite(m.macroImpl(line).value)
    else line
  }

  const LibHeader: seq<string> := ["", "#[allow(dead_code)]", "#[allow(unused_imports)]", "#[allow(unused_macros)]", "mod algorist {"]

  /** What `librs` writes for the lines of `src/lib.rs`: each `mod m;` expanded at level 1. */
  function LibLinesOut(fs: map<string, string>, m: Matchers, e: LineEnd, allow: seq<string>, lines: seq<string>): Result<seq<string>, string> {
    if |lines| == 0 then Ok([])
    else
      var line := Trim(e, lines[0]);
      var rest := LibLinesOut(fs, m, e, allow, lines[1..]);
      if IsIgnorable(m, line) then rest
      else if m.modDecl(line).Some? then
        var c := m.modDecl(line).value;
        var child := ModOut(fs, m, e, allow, c, c, 1);
        if child.Err? then child else Prepend(child.value, rest)
      else Prepend([line], rest)
  }

  /** What `librs` writes: the header, the library expanded, and the closing brace. */
  function LibOut(fs: map<string, string>, m: Matchers, e: LineEnd, allow: seq<string>): Result<seq<string>, string> {
    if "src/lib.rs" !in fs then Err("Error: file not found: \"src/lib.rs\"")
    else
      var body := LibLinesOut(fs, m, e, allow, ReadLines(fs["src/lib.rs"]));
      if body.Err? then body else Ok(LibHeader + body.value + ["}"])
  }

  /** Every file is empty or ends with a newline. */
  ghost predicate NewlineTerminated(fs: map<string, string>) {
    forall k :: k in fs ==> |fs[k]| == 0 || fs[k][|fs[k]| - 1] == '\n'
  }

  lemma {:induction false} ModOutAgrees(fs: map<string, string>, m: Matchers, allow: seq<string>, name: string, path: string, lvl: nat)
    requires NewlineTerminated(fs)
    ensures ModOut(fs, m, Pop, allow, name, path, lvl) == ModOut(fs, m, Strip, allow, name, path, lvl)
    decreases MaxKeyLen(fs.Keys) - |path|, 1, 0
  {
    if ReplaceAll(path, "/", "::") in allow && ModReader(fs, path).Ok? {
      ModReaderBound(fs, path);
      var k :| k in fs && ModReader(fs, path).value == fs[k];
      TrimAgrees(fs[k]);
      ModLinesOutAgrees(fs, m, allow, ReadLines(fs[k]), path, lvl);
    }
  }

  lemma {:induction false} ModLinesOutAgrees(fs: map<string, string>, m: Matchers, allow: seq<string>, lines: seq<string>, path: string, lvl: nat)
    requires |path| + 7 <= MaxKeyLen(fs.Keys)
    requires NewlineTerminated(fs) && EndsAlike(lines)
    ensures ModLinesOut(fs, m, Pop, allow, lines, path, lvl) == ModLinesOut(fs, m, Strip, allow, lines, path, lvl)
    decreases MaxKeyLen(fs.Keys) - |path|, 0, |lines|
  {
    if |lines| > 0 {
      assert Trim(Pop, lines[0]) == Trim(Strip, lines[0]);
      ModLinesOutAgrees(fs, m, allow, lines[1..], path, lvl);
      var line := Trim(Strip, lines[0]);
      if !IsIgnorable(m, line) && !m.cfgTest(line) && IsModDecl(m, line) {
        var c := m.modDecl(line).value;
        ModOutAgrees(fs, m, allow, c, path + "/" + c, lvl + 1);
      }
    }
  }

  lemma {:induction false} LibLinesOutAgrees(fs: map<string, string>, m: Matchers, allow: seq<string>, lines: seq<string>)
    requires NewlineTerminated(fs) && EndsAlike(lines)
    ensures LibLinesOut(fs, m, Pop, allow, lines) == LibLinesOut(fs, m, Strip, allow, lines)
    decreases |lines|
  {
    if |lines| > 0 {
      assert Trim(Pop, lines[0]) == Trim(Strip, lines[0]);
      LibLinesOutAgrees(fs, m, allow, lines[1..]);
      var line := Trim(Strip, lines[0]);
      if !IsIgnorable(m, line) && m.modDecl(line).Some? {
        var c := m.modDecl(line).value;
        ModOutAgrees(fs, m, allow, c, c, 1);
      }
    }
  }

  /**
   * When every file ends with a newline, `pop` and stripping write the same
   * bundle and import the same library modules.
   */
  lemma BundleAgrees(fs: map<string, string>, m: Matchers, allow: seq<string>, src: string)
    requires NewlineTerminated(fs) && src in fs
    ensures BinOut(m, Pop, ReadLines(fs[src])) == BinOut(m, Strip, ReadLines(fs[src]))
    ensures MainImports(m, Pop, ReadLines(fs[src])) == MainImports(m, Strip, ReadLines(fs[src]))
    ensures LibOut(fs, m, Pop, allow) == LibOut(fs, m, Strip, allow)
  {
    var lines := ReadLines(fs[src]);
    TrimAgrees(fs[src]);
    BinOutAgrees(m, lines);
    forall raw | raw in lines
      ensures MainImport(m, Pop, raw) == MainImport(m, Strip, raw)
    {
      var i :| 0 <= i < |lines| && lines[i] == raw;
    }
    if "src/lib.rs" in fs {
      TrimAgrees(fs["src/lib.rs"]);
      LibLinesOutAgrees(fs, m, allow, ReadLines(fs["src/lib.rs"]));
    }
  }

  // ---------------------------------------------------------------------
  // The bundler

  /** `a` is one of the `::`-prefixes of module `x`, `x` itself included. */
  ghost predicate IsPathPrefix(a: string, x: string) {
    exists k :: 1 <= k <= |Split(x)| && a == Join(Split(x)[..k])
  }

  /** Every `::`-prefix of module `x`, `x` itself included, is in `allow`. */
  ghost predicate PrefixesAllowed(x: string, allow: seq<string>) {
    forall k :: 1 <= k <= |Split(x)| ==> Join(Split(x)[..k]) in allow
  }

  /** Every allowed module is a `::`-prefix of a module in `sc`. */
  ghost predicate Covered(allow: seq<string>, sc: seq<string>) {
    forall a :: a in allow ==> exists i :: 0 <= i < |sc| && PrefixAt(a, sc, i)
  }

  ghost predicate PrefixAt(a: string, sc: seq<string>, i: nat)
    requires i < |sc|
  {
    IsPathPrefix(a, sc[i])
  }

  lemma CoveredGrows(allow: seq<string>, sc: seq<string>, sc': seq<string>)
    requires Covered(allow, sc) && sc <= sc'
    ensures Covered(allow, sc')
  {
    forall a | a in allow
      ensures exists i :: 0 <= i < |sc'| && PrefixAt(a, sc', i)
    {
      var i :| 0 <= i < |sc| && PrefixAt(a, sc, i);
      assert sc'[i] == sc[i];
      assert PrefixAt(a, sc', i);
    }
  }

  /** `Bundler`: the solution's path, the allowed modules and the lines written so far. */
  class Bundler {
    const fs: map<string, string>
    const m: Matchers
    const lineEnd: LineEnd
    const src: string
    var allow: seq<string>
    var out: seq<string>
    /** The modules whose files `extend_allow` has read, in the order it read them. */
    ghost var scanned: seq<string>

    /** `Bundler::new`; `lineEnd` is `Pop` for the source as written. */
    constructor(fs: map<string, string>, m: Matchers, lineEnd: LineEnd, src: string)
      ensures this.fs == fs && this.m == m && this.lineEnd == lineEnd && this.src == src
      ensures allow == [] && out == [] && scanned == []
    {
      this.fs := fs;
      this.m := m;
      this.lineEnd := lineEnd;
      this.src := src;
      allow := [];
      out := [];
      scanned := [];
    }

    /** Every module some file imports through `crate::`: the modules `extend_allow` can reach. */
    ghost function Candidates(): set<string> {
      ImportsIn(fs.Keys)
    }

    /** The modules the file at `k` imports through `crate::`. */
    ghost function FileImports(k: string): set<string>
      requires k in fs
    {
      AsSet(SubmodulesOf(m, LinesOf(fs[k])))
    }

    ghost function ImportsIn(ks: set<string>): (r: set<string>)
      requires ks <= fs.Keys
      ensures forall k :: k in ks ==> FileImports(k) <= r
      decreases ks
    {
      if ks == {} then {}
      else
        var k :| k in ks;
        FileImports(k) + ImportsIn(ks - {k})
    }

    lemma SubmodulesAreCandidates(p: string)
      requires ModReader(fs, p).Ok?
      ensures forall s :: s in SubmodulesOf(m, LinesOf(ModReader(fs, p).value)) ==> s in Candidates()
    {
      ModReaderBound(fs, p);
      var k :| k in fs && ModReader(fs, p).value == fs[k];
      assert FileImports(k) <= Candidates();
    }

    /** The module's file exists and every module it imports through `crate::` is allowed. */
    ghost predicate ImportsAllowed(modName: string, allow: seq<string>) {
      var file := ModReader(fs, ReplaceAll(modName, "::", "/"));
      file.Ok? && AllIn(SubmodulesOf(m, LinesOf(file.value)), allow)
    }

    lemma ImportsAllowedGrows(x: string, a: seq<string>, b: seq<string>)
      requires ImportsAllowed(x, a) && a <= b
      ensures ImportsAllowed(x, b)
    {
      PrefixKeeps(a, b);
    }

    /** Every module of `sc` from position `lo` on has its imports allowed. */
    ghost predicate ClosedFrom(sc: seq<string>, lo: nat, allow: seq<string>) {
      forall i :: lo <= i < |sc| ==> ClosedAt(sc, i, allow)
    }

    ghost predicate ClosedAt(sc: seq<string>, i: nat, allow: seq<string>)
      requires i < |sc|
    {
      ImportsAllowed(sc[i], allow)
    }

    lemma ClosedGrows(sc: seq<string>, sc': seq<string>, lo: nat, a: seq<string>, b: seq<string>)
      requires sc <= sc' && a <= b && ClosedFrom(sc, lo, a) && ClosedFrom(sc', |sc|, b)
      ensures ClosedFrom(sc', lo, b)
    {
      forall i | lo <= i < |sc|
        ensures ClosedAt(sc', i, b)
      {
        assert ClosedAt(sc, i, a);
        assert sc'[i] == sc[i];
        ImportsAllowedGrows(sc[i], a, b);
      }
    }

    /** Module `x` is imported through `crate::` by the file of module `y`. */
    ghost predicate ImportedBy(x: string, y: string) {
      var file := ModReader(fs, ReplaceAll(y, "::", "/"));
      file.Ok? && x in SubmodulesOf(m, LinesOf(file.value))
    }

    /** From position `lo` on, each module of `sc` is one of `roots` or is imported by a module before it. */
    ghost predicate Reached(sc: seq<string>, lo: nat, roots: set<string>) {
      forall i :: lo <= i < |sc| ==> ReachedAt(sc, i, roots)
    }

    ghost predicate ReachedAt(sc: seq<string>, i: nat, roots: set<string>)
      requires i < |sc|
    {
      sc[i] in roots || exists j :: 0 <= j < i && ImportedAt(sc, i, j)
    }

    ghost predicate ImportedAt(sc: seq<string>, i: nat, j: nat)
      requires j < i < |sc|
    {
      ImportedBy(sc[i], sc[j])
    }

    /** A scan extended by modules reached from some of the same roots still reaches from those roots. */
    lemma ReachedExtend(a: seq<string>, b: seq<string>, lo: nat, roots: set<string>, more: set<string>)
      requires a <= b && lo <= |a| && Reached(a, lo, roots) && Reached(b, |a|, more) && more <= roots
      ensures Reached(b, lo, roots)
    {
      forall i | lo <= i < |b|
        ensures ReachedAt(b, i, roots)
      {
        if i < |a| {
          assert ReachedAt(a, i, roots);
          assert a[i] == b[i];
          if a[i] !in roots {
            var j :| 0 <= j < i && ImportedAt(a, i, j);
            assert a[j] == b[j];
            assert ImportedAt(b, i, j);
          }
        } else {
          assert ReachedAt(b, i, more);
        }
      }
    }

    /** What the modules a file imports reach, the file's module reaches. */
    lemma ReachedFromImporter(sc: seq<string>, n: nat, x: string, subs: seq<string>)
      requires n < |sc| && sc[n] == x && Reached(sc, n + 1, AsSet(subs))
      requires forall s :: s in subs ==> ImportedBy(s, x)
      ensures Reached(sc, n, {x})
    {
      forall i | n <= i < |sc|
        ensures ReachedAt(sc, i, {x})
      {
        if i > n {
          assert ReachedAt(sc, i, AsSet(subs));
          if sc[i] in AsSet(subs) {
            assert ImportedAt(sc, i, n);
          }
        }
      }
    }

    /**
     * `extend_allow`: allows `module` and every `::`-prefix of it, then every
     * module its file imports through `crate::` before `#[cfg(test)]`, and so
     * on. A module already allowed changes nothing, and its file is not read
     * again. A missing file is an error; a missing file further down, which
     * the source turns into a panic, is an error too. The modules read here
     * have their imports allowed and are reached from `module`; what is newly
     * allowed is a prefix of one of them.
     */
    method ExtendAllow(modName: string) returns (r: Result<(), string>)
      modifies this
      requires NoRepeats(allow) && Covered(allow, scanned)
      ensures NoRepeats(allow) && Covered(allow, scanned) && old(allow) <= allow && out == old(out)
      ensures old(scanned) <= scanned && Reached(scanned, |old(scanned)|, {modName})
      ensures modName in old(allow) ==> r.Ok? && allow == old(allow) && scanned == old(scanned)
      ensures ModReader(fs, ReplaceAll(modName, "::", "/")).Err? && modName !in old(allow) ==>
                r.Err? && allow == old(allow) && scanned == old(scanned)
      ensures r.Ok? ==> modName in allow && ClosedFrom(scanned, |old(scanned)|, allow)
      ensures r.Ok? && modName !in old(allow) ==> PrefixesAllowed(modName, allow)
      ensures r.Ok? && modName !in old(allow) ==> modName in scanned && ImportsAllowed(modName, allow)
      decreases |Candidates() - AsSet(allow)|, if modName in Candidates() then 0 else 1, 2
    {
      if modName in allow {
        return Ok(());
      }
      var file := ModReader(fs, ReplaceAll(modName, "::", "/"));
      if file.Err? {
        return Err(file.error);
      }
      var submodules := SubmodulesOf(m, LinesOf(file.value));
      CoveredGrows(allow, scanned, scanned + [modName]);
      scanned := scanned + [modName];
      r := AllowModule(modName, submodules);
    }

    /** `extend_allow` once the module's file is read: its prefixes, then what it imports. */
    method AllowModule(modName: string, submodules: seq<string>) returns (r: Result<(), string>)
      modifies this
      requires NoRepeats(allow) && Covered(allow, scanned) && modName !in allow
      requires |scanned| > 0 && scanned[|scanned| - 1] == modName
      requires ModReader(fs, ReplaceAll(modName, "::", "/")).Ok?
      requires submodules == SubmodulesOf(m, LinesOf(ModReader(fs, ReplaceAll(modName, "::", "/")).value))
      ensures NoRepeats(allow) && Covered(allow, scanned) && old(allow) <= allow && out == old(out)
      ensures old(scanned) <= scanned && Reached(scanned, |old(scanned)| - 1, {modName})
      ensures modName in allow && PrefixesAllowed(modName, allow)
      ensures r.Ok? ==> ImportsAllowed(modName, allow) && ClosedFrom(scanned, |old(scanned)| - 1, allow)
      decreases |Candidates() - AsSet(allow)|, if modName in Candidates() then 0 else 1, 1
    {
      SubmodulesAreCandidates(ReplaceAll(modName, "::", "/"));
      ghost var n := |scanned| - 1;
      ghost var entry := allow;
      AllowPrefixes(modName, n);
      DifferenceShrinks(Candidates(), AsSet(entry), AsSet(allow), modName);
      ghost var before, prefixed := scanned, allow;
      r := AllowEach(submodules);
      ScanFinished(before, scanned, modName, submodules, prefixed, allow, r.Ok?);
    }

    /** What one scan of `modName` and of the modules it imports leaves behind. */
    lemma ScanFinished(sc1: seq<string>, sc2: seq<string>, modName: string, subs: seq<string>,
                       allow1: seq<string>, allow2: seq<string>, ok: bool)
      requires ModReader(fs, ReplaceAll(modName, "::", "/")).Ok?
      requires subs == SubmodulesOf(m, LinesOf(ModReader(fs, ReplaceAll(modName, "::", "/")).value))
      requires |sc1| > 0 && sc1[|sc1| - 1] == modName && sc1 <= sc2 && Reached(sc2, |sc1|, AsSet(subs))
      requires modName in allow1 && PrefixesAllowed(modName, allow1) && allow1 <= allow2
      requires ok ==> AllIn(subs, allow2) && ClosedFrom(sc2, |sc1|, allow2)
      ensures Reached(sc2, |sc1| - 1, {modName}) && modName in sc2
      ensures modName in allow2 && PrefixesAllowed(modName, allow2)
      ensures ok ==> ImportsAllowed(modName, allow2) && ClosedFrom(sc2, |sc1| - 1, allow2)
    {
      var n := |sc1| - 1;
      assert sc2[n] == sc1[n] == modName;
      ReachedFromImporter(sc2, n, modName, subs);
      PrefixKeeps(allow1, allow2);
      if ok {
        assert ClosedAt(sc2, n, allow2);
      }
    }

    /** The second loop of `extend_allow`: extends `allow` by each submodule in turn, stopping at an error. */
    method AllowEach(submodules: seq<string>) returns (r: Result<(), string>)
      modifies this
      requires NoRepeats(allow) && Covered(allow, scanned)
      requires forall s :: s in submodules ==> s in Candidates()
      ensures NoRepeats(allow) && Covered(allow, scanned) && old(allow) <= allow && out == old(out)
      ensures old(scanned) <= scanned && Reached(scanned, |old(scanned)|, AsSet(submodules))
      ensures r.Ok? ==> AllIn(submodules, allow) && ClosedFrom(scanned, |old(scanned)|, allow)
      decreases |Candidates() - AsSet(allow)|, 1, 0
    {
      ghost var entry := allow;
      ghost var n0 := |scanned|;
      for j := 0 to |submodules|
        invariant NoRepeats(allow) && Covered(allow, scanned) && entry <= allow && out == old(out)
        invariant old(scanned) <= scanned && Reached(scanned, n0, AsSet(submodules))
        invariant AllIn(submodules[..j], allow) && ClosedFrom(scanned, n0, allow)
      {
        DifferenceShrinks(Candidates(), AsSet(entry), AsSet(allow), "");
        ghost var before := allow;
        ghost var sc := scanned;
        var sub := ExtendAllow(submodules[j]);
        EntryInSet(submodules, j);
        ReachedExtend(sc, scanned, n0, AsSet(submodules), {submodules[j]});
        PrefixTrans(old(scanned), sc, scanned);
        if sub.Err? {
          return sub;
        }
        AllInGrows(submodules, j, entry, before, allow);
        ClosedGrows(sc, scanned, n0, before, allow);
      }
      assert submodules[..|submodules|] == submodules;
      r := Ok(());
    }

    /** The first loop of `extend_allow`: allows each `::`-prefix of the module, the module itself last. */
    method AllowPrefixes(modName: string, ghost n: nat)
      modifies this
      requires NoRepeats(allow) && Covered(allow, scanned) && n < |scanned| && scanned[n] == modName
      ensures NoRepeats(allow) && Covered(allow, scanned) && old(allow) <= allow && out == old(out)
      ensures scanned == old(scanned)
      ensures PrefixesAllowed(modName, allow)
      ensures modName in allow
    {
      var parts := Split(modName);
      for i := 0 to |parts|
        invariant NoRepeats(allow) && Covered(allow, scanned) && old(allow) <= allow && out == old(out)
        invariant scanned == old(scanned)
        invariant forall k :: 1 <= k <= i ==> Join(parts[..k]) in allow
      {
        var prefix := Join(parts[..i + 1]);
        if prefix !in allow {
          ghost var before := allow;
          assert PrefixAt(prefix, scanned, n);
          allow := allow + [prefix];
          PrefixKeeps(before, allow);
        }
      }
      JoinSplit(modName);
      assert parts[..|parts|] == parts;
    }

    lemma LineImportIn(raw: string)
      requires MainImport(m, lineEnd, raw).Some?
      ensures {MainImport(m, lineEnd, raw).value} <= MainImports(m, lineEnd, [raw])
    {
      assert raw in [raw];
    }

    /** Each solution line's own import is among the solution's imports. */
    lemma MainImportsOfLine(lines: seq<string>, i: nat)
      requires i < |lines|
      ensures MainImports(m, lineEnd, [lines[i]]) <= MainImports(m, lineEnd, lines)
    {
      forall x | x in MainImports(m, lineEnd, [lines[i]])
        ensures x in MainImports(m, lineEnd, lines)
      {
        assert lines[i] in lines;
      }
    }

    /**
     * `binrs`: copies the solution line by line, dropping ignorable lines,
     * and allows the module of every `use algorist::X::..` line it copies.
     */
    method Binrs() returns (r: Result<(), string>)
      modifies this
      requires NoRepeats(allow) && Covered(allow, scanned)
      ensures NoRepeats(allow) && Covered(allow, scanned) && old(allow) <= allow && old(scanned) <= scanned
      ensures src !in fs ==> r.Err? && out == old(out) && allow == old(allow) && scanned == old(scanned)
      ensures r.Ok? ==> src in fs && out == old(out) + BinOut(m, lineEnd, ReadLines(fs[src]))
      ensures r.Ok? ==> AllUsesAllowed(m, lineEnd, ReadLines(fs[src]), allow)
      ensures r.Ok? ==> ClosedFrom(scanned, |old(scanned)|, allow)
      ensures r.Ok? ==> Reached(scanned, |old(scanned)|, MainImports(m, lineEnd, ReadLines(fs[src])))
    {
      if src !in fs {
        return Err("failed to open " + src);
      }
      var lines := ReadLines(fs[src]);
      ghost var n0 := |scanned|;
      for i := 0 to |lines|
        invariant NoRepeats(allow) && Covered(allow, scanned) && old(allow) <= allow && old(scanned) <= scanned
        invariant out == old(out) + BinOut(m, lineEnd, lines[..i])
        invariant AllUsesAllowed(m, lineEnd, lines[..i], allow)
        invariant ClosedFrom(scanned, n0, allow) && Reached(scanned, n0, MainImports(m, lineEnd, lines))
      {
        BinOutStep(m, lineEnd, lines, i);
        Assoc(old(out), BinOut(m, lineEnd, lines[..i]), BinLine(m, lineEnd, lines[i]));
        ghost var before := allow;
        ghost var sc := scanned;
        r := CopyLine(lines[i]);
        MainImportsOfLine(lines, i);
        ReachedExtend(sc, scanned, n0, MainImports(m, lineEnd, lines), MainImports(m, lineEnd, [lines[i]]));
        PrefixTrans(old(scanned), sc, scanned);
        if r.Err? {
          return;
        }
        UsesAllowedGrows(m, lineEnd, lines, i, old(allow), before, allow);
        ClosedGrows(sc, scanned, n0, before, allow);
      }
      assert lines[..|lines|] == lines;
      r := Ok(());
    }

    /** One turn of the `binrs` loop. */
    method CopyLine(raw: string) returns (r: Result<(), string>)
      modifies this
      requires NoRepeats(allow) && Covered(allow, scanned)
      ensures NoRepeats(allow) && Covered(allow, scanned) && old(allow) <= allow && old(scanned) <= scanned
      ensures Reached(scanned, |old(scanned)|, MainImports(m, lineEnd, [raw]))
      ensures r.Ok? ==> out == old(out) + BinLine(m, lineEnd, raw) && UsesAllowed(m, lineEnd, raw, allow)
      ensures r.Ok? ==> ClosedFrom(scanned, |old(scanned)|, allow)
    {
      if raw == "\n" {
        out := out + [raw];
      } else {
        var line := Trim(lineEnd, raw);
        if !IsIgnorable(m, line) {
          if m.useMain(line).Some? {
            ghost var sc := scanned;
            r := ExtendAllow(m.useMain(line).value);
            LineImportIn(raw);
            ReachedExtend(sc, scanned, |sc|, MainImports(m, lineEnd, [raw]), {m.useMain(line).value});
            if r.Err? {
              return;
            }
          }
          out := out + [line];
        }
      }
      r := Ok(());
    }

    /** `modrs`: writes `ModOut` for the module, or fails as it does. */
    method Modrs(name: string, path: string, lvl: nat) returns (r: Result<(), string>)
      modifies this
      ensures allow == old(allow) && scanned == old(scanned)
      ensures r.Ok? <==> ModOut(fs, m, lineEnd, allow, name, path, lvl).Ok?
      ensures r.Ok? ==> out == old(out) + ModOut(fs, m, lineEnd, allow, name, path, lvl).value
      decreases MaxKeyLen(fs.Keys) - |path|, 2
    {
      if ReplaceAll(path, "/", "::") !in allow {
        return Ok(());
      }
      var header := "pub mod " + name + " {";
      out := out + [header];
      var file := ModReader(fs, path);
      if file.Err? {
        return Err(file.error);
      }
      ModReaderBound(fs, path);
      ghost var start := out;
      ghost var body := ModLinesOut(fs, m, lineEnd, allow, ReadLines(file.value), path, lvl);
      r := ModLines(ReadLines(file.value), path, lvl);
      if r.Err? {
        return;
      }
      assert ModOut(fs, m, lineEnd, allow, name, path, lvl) == Ok([header] + body.value + ["}"]);
      out := out + ["}"];
      Regroup(old(out), [header], body.value, ["}"]);
    }

    /**
     * One turn of the `modrs` loop, on line `i`: `Ok(true)` to go on with
     * `piece` written, `Ok(false)` at `#[cfg(test)]`, where the loop stops.
     */
    method ModLine(lines: seq<string>, i: nat, path: string, lvl: nat) returns (r: Result<bool, string>, ghost piece: seq<string>)
      requires |path| + 7 <= MaxKeyLen(fs.Keys) && i < |lines|
      modifies this
      ensures allow == old(allow) && scanned == old(scanned)
      ensures r.Err? ==> ModLinesOut(fs, m, lineEnd, allow, lines[i..], path, lvl).Err?
      ensures r == Ok(false) ==> ModLinesOut(fs, m, lineEnd, allow, lines[i..], path, lvl) == Ok([]) && out == old(out)
      ensures r == Ok(true) ==> out == old(out) + piece
      ensures r == Ok(true) ==> ModLinesOut(fs, m, lineEnd, allow, lines[i..], path, lvl) == Prepend(piece, ModLinesOut(fs, m, lineEnd, allow, lines[i + 1..], path, lvl))
      decreases MaxKeyLen(fs.Keys) - |path|, 0
    {
      assert lines[i..][1..] == lines[i + 1..];
      var line := Trim(lineEnd, lines[i]);
      piece := [];
      if IsIgnorable(m, line) {
        PrependNothing(ModLinesOut(fs, m, lineEnd, allow, lines[i + 1..], path, lvl));
        assert out == old(out) + piece;
        r := Ok(true);
      } else if m.cfgTest(line) {
        r := Ok(false);
      } else if IsModDecl(m, line) {
        var c := m.modDecl(line).value;
        var sub := Modrs(c, path + "/" + c, lvl + 1);
        if sub.Err? {
          return Err(sub.error), [];
        }
        piece := ModOut(fs, m, lineEnd, allow, c, path + "/" + c, lvl + 1).value;
        r := Ok(true);
      } else {
        var w := Rewritten(m, line, lvl);
        out := out + [w];
        piece := [w];
        r := Ok(true);
      }
    }

    /** The loop of `modrs` over the lines of one module file. */
    method ModLines(lines: seq<string>, path: string, lvl: nat) returns (r: Result<(), string>)
      requires |path| + 7 <= MaxKeyLen(fs.Keys)
      modifies this
      ensures allow == old(allow) && scanned == old(scanned)
      ensures r.Ok? <==> ModLinesOut(fs, m, lineEnd, allow, lines, path, lvl).Ok?
      ensures r.Ok? ==> out == old(out) + ModLinesOut(fs, m, lineEnd, allow, lines, path, lvl).value
      decreases MaxKeyLen(fs.Keys) - |path|, 1
    {
      ghost var start := out;
      ghost var acc: seq<string> := [];
      ghost var whole := ModLinesOut(fs, m, lineEnd, allow, lines, path, lvl);
      assert lines[0..] == lines;
      PrependNothing(whole);
      var i := 0;
      while i < |lines|
        invariant 0 <= i <= |lines| && allow == old(allow) && scanned == old(scanned)
        invariant out == start + acc
        invariant whole == Prepend(acc, ModLinesOut(fs, m, lineEnd, allow, lines[i..], path, lvl))
        decreases |lines| - i
      {
        ghost var tail := ModLinesOut(fs, m, lineEnd, allow, lines[i + 1..], path, lvl);
        var step, piece := ModLine(lines, i, path, lvl);
        if step.Err? {
          return Err(step.error);
        }
        if !step.value {
          PrependOk(acc);
          break;
        }
        PrependPrepend(acc, piece, tail);
        Assoc(start, acc, piece);
        acc := acc + piece;
        i := i + 1;
      }
      if i == |lines| {
        assert lines[i..] == [];
        PrependOk(acc);
      }
      assert whole == Ok(acc) && out == old(out) + acc;
      r := Ok(());
    }

    /** `librs`: writes `LibOut`, or fails as it does. */
    method Librs() returns (r: Result<(), string>)
      modifies this
      ensures allow == old(allow) && scanned == old(scanned)
      ensures r.Ok? <==> LibOut(fs, m, lineEnd, allow).Ok?
      ensures r.Ok? ==> out == old(out) + LibOut(fs, m, lineEnd, allow).value
    {
      if "src/lib.rs" !in fs {
        return Err("Error: file not found: \"src/lib.rs\"");
      }
      out := out + LibHeader;
      var lines := ReadLines(fs["src/lib.rs"]);
      ghost var start := out;
      ghost var acc: seq<string> := [];
      assert lines[0..] == lines;
      PrependNothing(LibLinesOut(fs, m, lineEnd, allow, lines));
      for i := 0 to |lines|
        invariant allow == old(allow) && scanned == old(scanned)
        invariant out == start + acc
        invariant LibLinesOut(fs, m, lineEnd, allow, lines) == Prepend(acc, LibLinesOut(fs, m, lineEnd, allow, lines[i..]))
      {
        assert lines[i..][1..] == lines[i + 1..];
        var line := Trim(lineEnd, lines[i]);
        ghost var tail := LibLinesOut(fs, m, lineEnd, allow, lines[i + 1..]);
        if IsIgnorable(m, line) {
        } else if m.modDecl(line).Some? {
          var c := m.modDecl(line).value;
          ghost var before := out;
          ghost var child := ModOut(fs, m, lineEnd, allow, c, c, 1);
          var sub := Modrs(c, c, 1);
          if sub.Err? {
            return sub;
          }
          assert out == before + child.value;
          PrependPrepend(acc, child.value, tail);
          Assoc(start, acc, child.value);
          acc := acc + child.value;
        } else {
          out := out + [line];
          PrependPrepend(acc, [line], tail);
          acc := acc + [line];
        }
      }
      assert lines[|lines|..] == [];
      PrependOk(acc);
      assert LibOut(fs, m, lineEnd, allow) == Ok(LibHeader + acc + ["}"]);
      out := out + ["}"];
      Regroup(old(out), LibHeader, acc, ["}"]);
      r := Ok(());
    }

    /**
     * `run` without the formatter: the solution, then the library modules it
     * needs. Every module whose file was scanned has its own imports allowed,
     * every allowed module is a `::`-prefix of a scanned one, and every scanned
     * module is reached from the solution's `use algorist::` lines through a
     * chain of `crate::` imports.
     */
    method Run() returns (r: Result<(), string>)
      modifies this
      requires allow == [] && out == [] && scanned == []
      ensures r.Ok? ==> src in fs && LibOut(fs, m, lineEnd, allow).Ok?
      ensures r.Ok? ==> out == BinOut(m, lineEnd, ReadLines(fs[src])) + LibOut(fs, m, lineEnd, allow).value
      ensures r.Ok? ==> AllUsesAllowed(m, lineEnd, ReadLines(fs[src]), allow)
      ensures r.Ok? ==> ClosedFrom(scanned, 0, allow) && Covered(allow, scanned)
      ensures r.Ok? ==> Reached(scanned, 0, MainImports(m, lineEnd, ReadLines(fs[src])))
    {
      r := Binrs();
      if r.Err? {
        return;
      }
      ghost var copied := out;
      assert copied == BinOut(m, lineEnd, ReadLines(fs[src]));
      r := Librs();
      if r.Err? {
        return;
      }
      assert out == copied + LibOut(fs, m, lineEnd, allow).value;
    }
  }
}
