/** The USB address locator (`Printer._address`): filter the `lsusb`
    listing to the lines that mention the printer model (as
    `lsusb | grep "<model>"` does), take the leftmost
    `[0-9a-fA-F]{4}:[0-9a-fA-F]{4}` in what is left and turn it into
    `usb://0x<vendor>:0x<product>`. Every failure gives `None`. */
module UsbLocator {
  import opened Wrappers

  /** Python's `[0-9a-fA-F]` character class. */
  predicate IsHexDigit(c: char) {
    ('0' <= c <= '9') || ('a' <= c <= 'f') || ('A' <= c <= 'F')
  }

  /** A nine-character window of the form `hhhh:hhhh`. */
  predicate IsPairWindow(w: string) {
    |w| == 9 && w[4] == ':' &&
    forall k :: 0 <= k < 9 && k != 4 ==> IsHexDigit(w[k])
  }

  /** The pattern matches `s` starting at index `i`. */
  predicate IsPairAt(s: string, i: int) {
    0 <= i && i + 9 <= |s| && IsPairWindow(s[i..i + 9])
  }

  ghost predicate HasPair(s: string) {
    exists i :: IsPairAt(s, i)
  }

  /** `i` is where `re.findall` finds its first match: the leftmost one. */
  ghost predicate IsFirstPair(s: string, i: int) {
    IsPairAt(s, i) && forall j :: 0 <= j < i ==> !IsPairAt(s, j)
  }

  /** Scans `s` from `from` for the leftmost match of the pattern. */
  function FindPair(s: string, from: nat): (r: Option<nat>)
    requires from <= |s|
    ensures r.Some? ==> from <= r.value && IsPairAt(s, r.value)
    ensures r.Some? ==> forall j :: from <= j < r.value ==> !IsPairAt(s, j)
    ensures r.None? ==> forall j :: from <= j ==> !IsPairAt(s, j)
    decreases |s| - from
  {
    if |s| < from + 9 then None
    else if IsPairWindow(s[from..from + 9]) then Some(from)
    else FindPair(s, from + 1)
  }

  /** `p` occurs in `s` as a contiguous substring (grep's match of a
      plain pattern against one line). */
  predicate Contains(s: string, p: string) {
    p <= s || (s != [] && Contains(s[1..], p))
  }

  /** `p` sits in `s` at offset `i`. */
  predicate OccursAt(s: string, p: string, i: int) {
    0 <= i && i + |p| <= |s| && s[i..i + |p|] == p
  }

  /** An occurrence at any offset makes `Contains` hold. */
  lemma {:induction false} OccursAtContains(s: string, p: string, i: int)
    requires OccursAt(s, p, i)
    ensures Contains(s, p)
    decreases i
  {
    if i == 0 {
      assert s[..|p|] == p;
    } else {
      assert s[1..][i - 1..i - 1 + |p|] == s[i..i + |p|];
      OccursAtContains(s[1..], p, i - 1);
    }
  }

  /** When `Contains` holds, the offset of an occurrence. */
  lemma {:induction false} ContainsOffset(s: string, p: string) returns (i: nat)
    requires Contains(s, p)
    ensures OccursAt(s, p, i)
    decreases |s|
  {
    if p <= s {
      i := 0;
      assert s[0..|p|] == p;
    } else {
      var j := ContainsOffset(s[1..], p);
      i := j + 1;
      assert s[i..i + |p|] == s[1..][j..j + |p|];
    }
  }

  /** `Contains` is substring search: `p` sits at some offset of `s`. */
  lemma ContainsIff(s: string, p: string)
    ensures Contains(s, p) <==> exists i :: OccursAt(s, p, i)
  {
    if Contains(s, p) {
      var i := ContainsOffset(s, p);
    }
    forall i | OccursAt(s, p, i)
      ensures Contains(s, p)
    {
      OccursAtContains(s, p, i);
    }
  }

  /** The lines of a text as grep reads them: separated by '\n', with a
      last line that lacks its newline still counted. */
  function Lines(s: string): (ls: seq<string>)
    ensures forall k :: 0 <= k < |ls| ==> '\n' !in ls[k]
    decreases |s|
  {
    if s == [] then []
    else
      var k := LineLength(s, 0);
      if k == |s| then [s] else [s[..k]] + Lines(s[k + 1..])
  }

  /** Index of the first '\n' in `s` at or after `from`, or `|s|`. */
  function LineLength(s: string, from: nat): (k: nat)
    requires from <= |s|
    ensures from <= k <= |s|
    ensures k < |s| ==> s[k] == '\n'
    ensures '\n' !in s[from..k]
    decreases |s| - from
  {
    if from == |s| || s[from] == '\n' then from else LineLength(s, from + 1)
  }

  /** A text made of the given lines, each ended by a newline, as
      `lsusb` prints its listing. */
  function JoinLines(lines: seq<string>): string {
    if lines == [] then [] else lines[0] + "\n" + JoinLines(lines[1..])
  }

  lemma LineLengthOf(x: string, y: string)
    requires '\n' !in x
    ensures LineLength(x + "\n" + y, 0) == |x|
  {
    var s := x + "\n" + y;
    assert s[|x|] == '\n';
    assert s[..|x|] == x;
  }

  /** Splitting a newline-terminated listing gives back its lines. */
  lemma {:induction false} LinesJoinLines(lines: seq<string>)
    requires forall k :: 0 <= k < |lines| ==> '\n' !in lines[k]
    ensures Lines(JoinLines(lines)) == lines
  {
    if lines != [] {
      var x, rest := lines[0], JoinLines(lines[1..]);
      var s := x + "\n" + rest;
      assert JoinLines(lines) == s;
      LineLengthOf(x, rest);
      assert s[..|x|] == x;
      assert s[|x| + 1..] == rest;
      LinesJoinLines(lines[1..]);
    }
  }

  /** Joining the lines of a newline-terminated text gives the text
      back: no character is lost or added by the split. */
  lemma {:induction false} JoinLinesLines(s: string)
    requires s == [] || s[|s| - 1] == '\n'
    ensures JoinLines(Lines(s)) == s
    decreases |s|
  {
    if s != [] {
      var k := FirstLineSplit(s);
      var rest := s[k + 1..];
      JoinLinesLines(rest);
      JoinLinesCons(s[..k], Lines(rest));
    }
  }

  /** A non-empty newline-terminated text is its first line, a newline
      and the rest, which is again newline-terminated. */
  lemma FirstLineSplit(s: string) returns (k: nat)
    requires s != [] && s[|s| - 1] == '\n'
    ensures k < |s| && k == LineLength(s, 0)
    ensures Lines(s) == [s[..k]] + Lines(s[k + 1..])
    ensures s == s[..k] + "\n" + s[k + 1..]
    ensures s[k + 1..] == [] || s[k + 1..][|s[k + 1..]| - 1] == '\n'
  {
    k := LineLength(s, 0);
    assert s[|s| - 1] in s[0..|s|];
  }

  lemma JoinLinesCons(x: string, rest: seq<string>)
    ensures JoinLines([x] + rest) == x + "\n" + JoinLines(rest)
  {
    assert ([x] + rest)[1..] == rest;
  }

  /** What `grep` prints: every line that contains `model`, each
      followed by a newline, in input order. */
  function Grep(lines: seq<string>, model: string): (out: string)
    ensures out == [] <==> forall k :: 0 <= k < |lines| ==> !Contains(lines[k], model)
    ensures out != [] ==> out[|out| - 1] == '\n'
  {
    if lines == [] then []
    else (if Contains(lines[0], model) then lines[0] + "\n" else [])
         + Grep(lines[1..], model)
  }

  /** The printer's bus address found in the `lsusb` listing, or `None`.
      An empty grep output (grep exits with status 1, which makes
      `check_output` raise) and an output without a match (indexing the
      empty `findall` list raises) both end in the `except` branch. */
  function Address(lsusb: string, model: string): (r: Option<string>)
    ensures r.None? <==> !HasPair(Grep(Lines(lsusb), model))
    ensures r.Some? ==>
      exists i :: IsFirstPair(Grep(Lines(lsusb), model), i) && r.value == BusAddress(Grep(Lines(lsusb), model), i)
  {
    var out := Grep(Lines(lsusb), model);
    if out == [] then None
    else
      match FindPair(out, 0)
      case None => None
      case Some(i) => assert IsFirstPair(out, i); Some(BusAddress(out, i))
  }

  /** The f-string `usb://0x{vendor}:0x{product}` built from the match
      at `i`, split at its colon. */
  function BusAddress(out: string, i: nat): string
    requires IsPairAt(out, i)
  {
    "usb://0x" + out[i..i + 4] + ":0x" + out[i + 5..i + 9]
  }

  /** Every address the locator returns has the fixed shape
      `usb://0x` + four hex digits + `:0x` + four hex digits, 19
      characters in all, so vendor and product can be read back. */
  lemma AddressShape(lsusb: string, model: string)
    requires Address(lsusb, model).Some?
    ensures var a := Address(lsusb, model).value;
      |a| == 19 && a[..8] == "usb://0x" && a[12..15] == ":0x" &&
      forall k :: (8 <= k < 12 || 15 <= k < 19) ==> IsHexDigit(a[k])
  {
    var out := Grep(Lines(lsusb), model);
    var i :| IsFirstPair(out, i) && Address(lsusb, model).value == BusAddress(out, i);
    var w := out[i..i + 9];
    assert IsPairWindow(w);
    assert out[i..i + 4] == w[..4] && out[i + 5..i + 9] == w[5..];
  }

  /** A match never covers a '\n': the pattern's colon is not one and
      neither is any hex digit. */
  lemma PairAvoidsNewline(s: string, i: int, m: int)
    requires IsPairAt(s, i) && 0 <= m < |s| && s[m] == '\n'
    ensures m < i || i + 9 <= m
  {
  }

  /** No match straddles a line break. */
  lemma PairAcrossNewline(x: string, b: string)
    ensures HasPair(x + "\n" + b) <==> HasPair(x) || HasPair(b)
  {
    var s := x + "\n" + b;
    var n := |x|;
    assert s[n] == '\n';
    assert s[n + 1..] == b;
    if HasPair(s) {
      var i :| IsPairAt(s, i);
      PairAvoidsNewline(s, i, n);
      if i + 9 <= n {
        assert s[i..i + 9] == x[i..i + 9];
        assert IsPairAt(x, i);
      } else {
        assert s[i..i + 9] == s[n + 1..][i - n - 1..i - n - 1 + 9] == b[i - n - 1..i - n - 1 + 9];
        assert IsPairAt(b, i - n - 1);
      }
    }
    if HasPair(x) {
      var i :| IsPairAt(x, i);
      assert s[i..i + 9] == x[i..i + 9];
      assert IsPairAt(s, i);
    }
    if HasPair(b) {
      var j :| IsPairAt(b, j);
      assert s[n + 1 + j..n + 1 + j + 9] == s[n + 1..][j..j + 9] == b[j..j + 9];
      assert IsPairAt(s, n + 1 + j);
    }
  }

  /** The grep output holds a match exactly when one of the lines that
      mention the model holds one. */
  lemma {:induction false} GrepHasPair(lines: seq<string>, model: string)
    ensures HasPair(Grep(lines, model)) <==>
      exists k :: 0 <= k < |lines| && Contains(lines[k], model) && HasPair(lines[k])
  {
    if lines == [] {
      assert !IsPairAt([], 0);
    } else {
      var rest := Grep(lines[1..], model);
      GrepHasPair(lines[1..], model);
      if Contains(lines[0], model) {
        assert Grep(lines, model) == lines[0] + "\n" + rest;
        PairAcrossNewline(lines[0], rest);
      } else {
        assert Grep(lines, model) == rest;
      }
      if exists k :: 0 <= k < |lines| && Contains(lines[k], model) && HasPair(lines[k]) {
        var k :| 0 <= k < |lines| && Contains(lines[k], model) && HasPair(lines[k]);
        if k > 0 {
          assert lines[1..][k - 1] == lines[k];
        }
      }
    }
  }

  /** Filtering two listings joined is filtering each in turn. */
  lemma {:induction false} GrepAppend(a: seq<string>, b: seq<string>, model: string)
    ensures Grep(a + b, model) == Grep(a, model) + Grep(b, model)
    decreases |a|
  {
    if a == [] {
      assert a + b == b;
    } else {
      var head := if Contains(a[0], model) then a[0] + "\n" else [];
      assert (a + b)[0] == a[0];
      assert (a + b)[1..] == a[1..] + b;
      GrepAppend(a[1..], b, model);
      assert Grep(a + b, model) == head + (Grep(a[1..], model) + Grep(b, model));
      assert Grep(a, model) == head + Grep(a[1..], model);
    }
  }

  /** A first match in `line` is the first match of the text once `line`
      follows a prefix without a match that is empty or ends in a
      newline, and once anything follows `line`. */
  lemma FirstPairAfterPrefix(prefix: string, line: string, suffix: string, i: int)
    requires !HasPair(prefix) && (prefix == [] || prefix[|prefix| - 1] == '\n')
    requires IsFirstPair(line, i)
    ensures IsFirstPair(prefix + line + suffix, |prefix| + i)
    ensures (prefix + line + suffix)[|prefix| + i..|prefix| + i + 9] == line[i..i + 9]
  {
    var g := prefix + line + suffix;
    var n := |prefix|;
    assert g[n + i..n + i + 9] == line[i..i + 9];
    forall j | 0 <= j < n + i
      ensures !IsPairAt(g, j)
    {
      if j + 9 <= n {
        assert g[j..j + 9] == prefix[j..j + 9];
        assert !IsPairAt(prefix, j);
      } else if j < n {
        assert g[j..j + 9][n - 1 - j] == '\n';
      } else {
        assert g[j..j + 9] == line[j - n..j - n + 9];
        assert !IsPairAt(line, j - n);
      }
    }
  }

  /** Two first matches of the same text are the same match. */
  lemma FirstPairUnique(s: string, p: int, q: int)
    requires IsFirstPair(s, p) && IsFirstPair(s, q)
    ensures p == q
  {
  }

  /** Line `k` is the first line of the listing that both mentions the
      model and holds a `hhhh:hhhh` pair. */
  ghost predicate IsFirstMatchingLine(lines: seq<string>, model: string, k: int) {
    0 <= k < |lines| && MatchingLine(lines[k], model) &&
    forall j :: 0 <= j < k ==> !MatchingLine(lines[j], model)
  }

  /** A line that grep keeps and that holds a pair. */
  ghost predicate MatchingLine(line: string, model: string) {
    Contains(line, model) && HasPair(line)
  }

  /** When some line matches, a first one does. */
  lemma FirstMatchingLineExists(lines: seq<string>, model: string, m: int) returns (k: nat)
    requires 0 <= m < |lines| && MatchingLine(lines[m], model)
    ensures IsFirstMatchingLine(lines, model, k)
  {
    k := 0;
    while !MatchingLine(lines[k], model)
      invariant k <= m
      invariant forall j :: 0 <= j < k ==> !MatchingLine(lines[j], model)
      decreases m - k
    {
      k := k + 1;
    }
  }

  /** Around the first matching line the grep output is the output
      of the lines before it, which holds no pair and is empty or ends
      in a newline, then the line itself, then the rest. */
  lemma GrepAroundFirstMatch(lines: seq<string>, model: string, k: int)
    requires IsFirstMatchingLine(lines, model, k)
    ensures var prefix := Grep(lines[..k], model);
      && Grep(lines, model) == prefix + lines[k] + ("\n" + Grep(lines[k + 1..], model))
      && !HasPair(prefix) && (prefix == [] || prefix[|prefix| - 1] == '\n')
  {
    var line := lines[k];
    var before, after := lines[..k], lines[k + 1..];
    assert lines == before + ([line] + after);
    GrepAppend(before, [line] + after, model);
    GrepAppend([line], after, model);
    assert [line][1..] == [];
    assert Grep([line], model) == line + "\n";
    forall j | 0 <= j < |before|
      ensures !MatchingLine(before[j], model)
    {
      assert before[j] == lines[j];
    }
    GrepNoPair(before, model);
    var prefix, tail := Grep(before, model), Grep(after, model);
    assert Grep(lines, model) == prefix + ((line + "\n") + tail);
    Regroup(prefix, line, tail);
  }

  /** Moves the newline after a line to the front of what follows it. */
  lemma Regroup(a: string, b: string, c: string)
    ensures a + ((b + "\n") + c) == a + b + ("\n" + c)
  {
  }

  /** With no matching line, the grep output holds no pair. */
  lemma GrepNoPair(lines: seq<string>, model: string)
    requires forall j :: 0 <= j < |lines| ==> !MatchingLine(lines[j], model)
    ensures !HasPair(Grep(lines, model))
  {
    GrepHasPair(lines, model);
  }

  /** Of several attached devices of the model, the locator takes the
      one `lsusb` lists first: the address is built from the first match
      of the first line that mentions the model and holds a pair. */
  lemma AddressFromFirstLine(lsusb: string, model: string)
    requires Address(lsusb, model).Some?
    ensures exists k, i ::
      IsFirstMatchingLine(Lines(lsusb), model, k) && IsFirstPair(Lines(lsusb)[k], i) &&
      Address(lsusb, model).value == BusAddress(Lines(lsusb)[k], i)
  {
    var lines := Lines(lsusb);
    var g := Grep(lines, model);
    var p :| IsFirstPair(g, p) && Address(lsusb, model).value == BusAddress(g, p);
    var m := SomeMatchingLine(lines, model);
    var k := FirstMatchingLineExists(lines, model, m);
    var line := lines[k];
    GrepAroundFirstMatch(lines, model, k);
    var prefix := Grep(lines[..k], model);
    var i := FindPair(line, 0).value;
    FirstPairAfterPrefix(prefix, line, "\n" + Grep(lines[k + 1..], model), i);
    FirstPairUnique(g, p, |prefix| + i);
    SameWindowSameAddress(g, p, line, i);
  }

  /** When the grep output holds a pair, some line matches. */
  lemma SomeMatchingLine(lines: seq<string>, model: string) returns (m: nat)
    requires HasPair(Grep(lines, model))
    ensures m < |lines| && MatchingLine(lines[m], model)
  {
    GrepHasPair(lines, model);
    m :| 0 <= m < |lines| && Contains(lines[m], model) && HasPair(lines[m]);
  }

  /** Two equal matched windows give the same address. */
  lemma SameWindowSameAddress(s: string, p: nat, t: string, i: nat)
    requires IsPairAt(s, p) && IsPairAt(t, i) && s[p..p + 9] == t[i..i + 9]
    ensures BusAddress(s, p) == BusAddress(t, i)
  {
    assert s[p..p + 4] == s[p..p + 9][..4] == t[i..i + 4];
    assert s[p + 5..p + 9] == s[p..p + 9][5..] == t[i + 5..i + 9];
  }

  /** The locator finds an address exactly when some line of the
      listing both mentions the model and holds a `hhhh:hhhh` pair; in
      particular it answers `None` when no line mentions the model. */
  lemma AddressFoundIff(lsusb: string, model: string)
    ensures Address(lsusb, model).Some? <==>
      exists k :: 0 <= k < |Lines(lsusb)| && Contains(Lines(lsusb)[k], model) && HasPair(Lines(lsusb)[k])
  {
    var lines := Lines(lsusb);
    var out := Grep(lines, model);
    var a := Address(lsusb, model);
    assert a.None? <==> !HasPair(out);
    GrepHasPair(lines, model);
    if a.Some? {
      var k :| 0 <= k < |lines| && Contains(lines[k], model) && HasPair(lines[k]);
      assert Contains(Lines(lsusb)[k], model) && HasPair(Lines(lsusb)[k]);
    }
  }
}
