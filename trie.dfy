// The generator of the public-suffix trie: a trie of dot-separated
// labels stored from the rightmost label down, the lookup of the longest
// known suffix of a domain name, the filter that decides which lines of
// the public suffix list are added, and the loop that splits the JSON
// output into lines of at least 80 characters ending at a comma.
module TldTrie {
  import opened Js

  /** A trie node: the labels below it and their sub-tries. */
  datatype Trie = Node(children: map<string, Trie>)

  /** The empty root the generator starts from. */
  const Empty: Trie := Node(map[])

  // ---------------------------------------------------------------------
  // Labels
  // ---------------------------------------------------------------------

  /** Labels joined with dots (the inverse of `Split`). */
  function Join(parts: seq<string>): string
    requires |parts| >= 1
  {
    if |parts| == 1 then parts[0] else parts[0] + "." + Join(parts[1..])
  }

  /** `strings.Split(s, ".")`: the dot-free pieces of `s`, at least one. */
  function Split(s: string): (parts: seq<string>)
    ensures |parts| >= 1
  {
    if s == [] then [""]
    else
      var rest := Split(s[1..]);
      if s[0] == '.' then [""] + rest
      else [[s[0]] + rest[0]] + rest[1..]
  }

  /** The pieces are dot-free and join back to `s`. */
  lemma {:induction false} SplitJoins(s: string)
    ensures forall k :: 0 <= k < |Split(s)| ==> '.' !in Split(s)[k]
    ensures Join(Split(s)) == s
  {
    if s != [] {
      SplitJoins(s[1..]);
      var rest := Split(s[1..]);
      var parts := Split(s);
      if s[0] == '.' {
        assert parts[1..] == rest;
      } else {
        assert |parts| > 1 ==> parts[1..] == rest[1..];
        assert s == [s[0]] + s[1..];
      }
    }
  }

  /** A dot-free string splits into itself. */
  lemma {:induction false} SplitDotFree(x: string)
    requires '.' !in x
    ensures Split(x) == [x]
  {
    if x != [] {
      SplitDotFree(x[1..]);
      assert [x[0]] + x[1..] == x;
    }
  }

  /** Splitting stops at the first dot. */
  lemma {:induction false} SplitAtDot(x: string, y: string)
    requires '.' !in x
    ensures Split(x + "." + y) == [x] + Split(y)
  {
    var s := x + "." + y;
    if x == [] {
      assert s[1..] == y;
    } else {
      assert s[1..] == x[1..] + "." + y;
      SplitAtDot(x[1..], y);
      assert [x[0]] + x[1..] == x;
    }
  }

  /** `Split` undoes `Join` for dot-free labels. */
  lemma {:induction false} SplitJoin(parts: seq<string>)
    requires |parts| >= 1
    requires forall k :: 0 <= k < |parts| ==> '.' !in parts[k]
    ensures Split(Join(parts)) == parts
  {
    if |parts| == 1 {
      SplitDotFree(parts[0]);
    } else {
      SplitJoin(parts[1..]);
      SplitAtDot(parts[0], Join(parts[1..]));
    }
  }

  /** Joining with one more label on the right adds a dot and the label. */
  lemma {:induction false} JoinSnoc(parts: seq<string>, x: string)
    requires |parts| >= 1
    ensures Join(parts + [x]) == Join(parts) + "." + x
  {
    if |parts| > 1 {
      assert (parts + [x])[1..] == parts[1..] + [x];
      JoinSnoc(parts[1..], x);
    }
  }

  /** A join splits at any label boundary. */
  lemma {:induction false} JoinAt(parts: seq<string>, i: nat)
    requires 0 < i < |parts|
    ensures Join(parts) == Join(parts[..i]) + "." + Join(parts[i..])
  {
    if i > 1 {
      JoinAt(parts[1..], i - 1);
      assert parts[1..][..i - 1] == parts[..i][1..];
      assert parts[1..][i - 1..] == parts[i..];
    }
  }

  /** The labels in reverse order. */
  function Reverse(s: seq<string>): (r: seq<string>)
    ensures |r| == |s|
    ensures forall k :: 0 <= k < |s| ==> r[k] == s[|s| - 1 - k]
  {
    if s == [] then [] else [s[|s| - 1]] + Reverse(s[..|s| - 1])
  }

  /** The labels of `s` in the order the trie stores them: rightmost first. */
  function Labels(s: string): seq<string>
  {
    Reverse(Split(s))
  }

  // ---------------------------------------------------------------------
  // The trie
  // ---------------------------------------------------------------------

  /** How many labels of `path` (from its start) are found from `t` downwards. */
  function Matched(t: Trie, path: seq<string>): (k: nat)
    ensures k <= |path|
  {
    if path != [] && path[0] in t.children then 1 + Matched(t.children[path[0]], path[1..]) else 0
  }

  /** `path` is a path of `t`. */
  predicate Contains(t: Trie, path: seq<string>)
  {
    Matched(t, path) == |path|
  }

  /** `path` starts with `q`. */
  predicate IsPrefix(q: seq<string>, path: seq<string>)
  {
    |q| <= |path| && path[..|q|] == q
  }

  /** The trie with `path` added: existing nodes are kept, missing ones created empty. */
  function Insert(t: Trie, path: seq<string>): Trie
    decreases |path|
  {
    if path == [] then t
    else
      var child := if path[0] in t.children then t.children[path[0]] else Empty;
      Node(t.children[path[0] := Insert(child, path[1..])])
  }

  /** `TrieNode.Add(s)`: the labels of `s` added from the rightmost down. */
  function Add(t: Trie, s: string): Trie
  {
    Insert(t, Labels(s))
  }

  /** After adding a path it is in the trie. */
  lemma {:induction false} InsertContains(t: Trie, path: seq<string>)
    ensures Contains(Insert(t, path), path)
    decreases |path|
  {
    if path != [] {
      var child := if path[0] in t.children then t.children[path[0]] else Empty;
      InsertContains(child, path[1..]);
    }
  }

  /** Adding keeps every path already in the trie, and creates no path other than prefixes of the new one. */
  lemma {:induction false} InsertPaths(t: Trie, path: seq<string>, q: seq<string>)
    ensures Contains(t, q) ==> Contains(Insert(t, path), q)
    ensures Contains(Insert(t, path), q) ==> Contains(t, q) || IsPrefix(q, path)
    decreases |path|
  {
    if path != [] && q != [] {
      var child := if path[0] in t.children then t.children[path[0]] else Empty;
      if q[0] == path[0] {
        InsertPaths(child, path[1..], q[1..]);
        if Contains(Insert(child, path[1..]), q[1..]) && !Contains(t, q) {
          if path[0] in t.children {
            assert IsPrefix(q[1..], path[1..]);
          } else {
            assert Matched(Empty, q[1..]) == 0;
            assert q[1..] == [] || IsPrefix(q[1..], path[1..]);
          }
          assert q == [q[0]] + q[1..];
          assert path == [path[0]] + path[1..];
        }
      }
    }
  }

  /** Adding a path that is already there leaves the trie unchanged. */
  lemma {:induction false} InsertPresent(t: Trie, path: seq<string>)
    requires Contains(t, path)
    ensures Insert(t, path) == t
  {
    if path != [] {
      InsertPresent(t.children[path[0]], path[1..]);
      assert t.children[path[0] := t.children[path[0]]] == t.children;
    }
  }

  /** `Add` is idempotent: adding the same name twice is adding it once. */
  lemma AddIdempotent(t: Trie, s: string)
    ensures Add(Add(t, s), s) == Add(t, s)
  {
    InsertContains(t, Labels(s));
    InsertPresent(Add(t, s), Labels(s));
  }

  // ---------------------------------------------------------------------
  // Lookup
  // ---------------------------------------------------------------------

  /** How the lookup extends its match by one more label: with a dot only when something matched already. */
  function Extend(matched: string, path: seq<string>): string
    decreases |path|
  {
    if path == [] then matched
    else Extend(if |matched| > 0 then path[0] + "." + matched else path[0], path[1..])
  }

  /** The walk down `t` along `path`, with `matched` the labels matched so far. */
  function Walk(t: Trie, path: seq<string>, matched: string): string
  {
    if path == [] then matched
    else if path[0] !in t.children then path[0] + "." + matched
    else Walk(t.children[path[0]], path[1..], if |matched| > 0 then path[0] + "." + matched else path[0])
  }

  /** The result of `t.Lookup(s)`. */
  function LookupOf(t: Trie, s: string): string
  {
    Walk(t, Labels(s), "")
  }

  /** The walk reads the matched labels, and then the first missing one followed by a dot. */
  lemma {:induction false} WalkShape(t: Trie, path: seq<string>, matched: string)
    ensures Matched(t, path) == |path| ==> Walk(t, path, matched) == Extend(matched, path)
    ensures Matched(t, path) < |path| ==>
      Walk(t, path, matched) == path[Matched(t, path)] + "." + Extend(matched, path[..Matched(t, path)])
  {
    if path != [] && path[0] in t.children {
      var m := if |matched| > 0 then path[0] + "." + matched else path[0];
      WalkShape(t.children[path[0]], path[1..], m);
      var k := Matched(t, path);
      if k < |path| {
        assert path[1..][..k - 1] == path[..k][1..];
        assert path[1..][k - 1] == path[k];
      }
    }
  }

  /** Extending by labels taken from the right joins them in their original order. */
  lemma {:induction false} ExtendJoins(matched: string, parts: seq<string>)
    requires |parts| >= 1
    ensures matched != "" ==> Extend(matched, Reverse(parts)) == Join(parts) + "." + matched
    ensures parts[|parts| - 1] != "" || |parts| == 1 ==> Extend("", Reverse(parts)) == Join(parts)
    decreases |parts|
  {
    var n := |parts|;
    var init := parts[..n - 1];
    var last := parts[n - 1];
    assert parts == init + [last];
    assert Reverse(parts)[1..] == Reverse(init);
    if n > 1 {
      ExtendJoins(last + "." + matched, init);
      ExtendJoins(last, init);
      JoinSnoc(init, last);
      assert Join(parts) == Join(init) + "." + last;
    } else {
      assert Reverse(init) == [];
    }
  }

  /** A name that does not end with a dot has a non-empty rightmost label, or only one label. */
  lemma LastLabel(s: string)
    requires s == [] || s[|s| - 1] != '.'
    ensures var parts := Split(s); parts[|parts| - 1] != "" || |parts| == 1
  {
    var parts := Split(s);
    var n := |parts|;
    SplitJoins(s);
    if n > 1 {
      assert parts == parts[..n - 1] + [parts[n - 1]];
      JoinSnoc(parts[..n - 1], parts[n - 1]);
    }
  }

  /** After `t.Add(s)`, `t.Lookup(s)` returns `s`, for any name not ending in a dot. */
  lemma LookupAfterAdd(t: Trie, s: string)
    requires s == [] || s[|s| - 1] != '.'
    ensures LookupOf(Add(t, s), s) == s
  {
    var parts := Split(s);
    var p := Reverse(parts);
    var t' := Insert(t, p);
    assert Walk(t', p, "") == Extend("", p) by {
      InsertContains(t, p);
      WalkShape(t', p, "");
    }
    assert Extend("", p) == Join(parts) by {
      LastLabel(s);
      ExtendJoins("", parts);
    }
    assert Join(parts) == s by {
      SplitJoins(s);
    }
  }

  /** When the rightmost label is not in the trie, the lookup is that label and a dot. */
  lemma LookupMissingRightmost(t: Trie, s: string)
    requires Split(s)[|Split(s)| - 1] !in t.children
    ensures LookupOf(t, s) == Split(s)[|Split(s)| - 1] + "."
  {
    var parts := Split(s);
    var p := Labels(s);
    assert p[0] == parts[|parts| - 1];
    assert Walk(t, p, "") == p[0] + "." + "";
  }

  /**
   * A walk that matches `k >= 1` of the labels from the right and stops at
   * a missing one ends with that label in front of the matched ones: the
   * labels from `n - 1 - k` on, joined, a suffix of the whole join.
   */
  lemma {:induction false} WalkPartial(t: Trie, parts: seq<string>, k: nat, r: string, whole: string)
    requires 0 < k < |parts| && parts[|parts| - 1] != "" && whole == Join(parts)
    requires k == Matched(t, Reverse(parts)) && r == Walk(t, Reverse(parts), "")
    ensures r == parts[|parts| - 1 - k] + "." + Join(parts[|parts| - k..])
    ensures r == Join(parts[|parts| - 1 - k..])
    ensures |r| <= |whole| && whole[|whole| - |r|..] == r
  {
    var n := |parts|;
    var p := Reverse(parts);
    assert r == parts[n - 1 - k] + "." + Extend("", p[..k]) by {
      WalkShape(t, p, "");
      assert p[k] == parts[n - 1 - k];
    }
    assert p[..k] == Reverse(parts[n - k..]);
    ExtendJoins("", parts[n - k..]);
    assert parts[n - 1 - k..][1..] == parts[n - k..];
    assert r == Join(parts[n - 1 - k..]);
    if n - 1 - k > 0 {
      JoinAt(parts, n - 1 - k);
    } else {
      assert parts[n - 1 - k..] == parts;
    }
  }

  /**
   * When `k >= 1` labels match and some do not, the lookup is the matched
   * suffix with one more label in front, and it is a suffix of the name.
   */
  lemma LookupPartial(t: Trie, s: string)
    requires s == [] || s[|s| - 1] != '.'
    requires 0 < Matched(t, Labels(s)) < |Labels(s)|
    ensures var parts, k := Split(s), Matched(t, Labels(s));
      var n := |parts|;
      LookupOf(t, s) == parts[n - 1 - k] + "." + Join(parts[n - k..])
      && LookupOf(t, s) == Join(parts[n - 1 - k..])
      && |LookupOf(t, s)| <= |s| && s[|s| - |LookupOf(t, s)|..] == LookupOf(t, s)
  {
    var parts := Split(s);
    assert parts[|parts| - 1] != "" by {
      LastLabel(s);
    }
    assert Join(parts) == s by {
      SplitJoins(s);
    }
    WalkPartial(t, parts, Matched(t, Labels(s)), LookupOf(t, s), s);
  }

  /** `TrieNode.Lookup(s)`: walks the labels of `s` from the right, without changing the trie. */
  method Lookup(t: Trie, s: string) returns (r: string)
    ensures r == LookupOf(t, s)
  {
    var levels := Split(s);
    var l := |levels|;
    var path := Reverse(levels);
    var node := t;
    var matched := "";
    var i := l;
    while i > 0
      invariant 0 <= i <= l
      invariant Walk(node, path[l - i..], matched) == Walk(t, path, "")
    {
      var lvl := levels[i - 1];
      assert path[l - i..][0] == lvl && path[l - i..][1..] == path[l - (i - 1)..];
      if lvl !in node.children {
        return lvl + "." + matched;
      }
      ghost var next := if |matched| > 0 then lvl + "." + matched else lvl;
      if |matched| > 0 {
        matched := "." + matched;
      }
      matched := lvl + matched;
      assert matched == next;
      node := node.children[lvl];
      i := i - 1;
    }
    return matched;
  }

  // ---------------------------------------------------------------------
  // Reading the public suffix list
  // ---------------------------------------------------------------------

  /** `unicode.IsSpace` of Go. */
  predicate IsGoSpace(c: char)
  {
    c == '\t' || c == '\n' || c == '\U{000B}' || c == '\U{000C}' || c == '\r' || c == ' ' ||
    c == '\U{0085}' || c == '\U{00A0}' || c == '\U{1680}' || ('\U{2000}' <= c <= '\U{200A}') ||
    c == '\U{2028}' || c == '\U{2029}' || c == '\U{202F}' || c == '\U{205F}' || c == '\U{3000}'
  }

  /** `strings.TrimLeftFunc(s, unicode.IsSpace)`: the suffix after the leading space. */
  function TrimLeft(s: string): (r: string)
    ensures |r| <= |s| && r == s[|s| - |r|..]
    ensures r == [] || !IsGoSpace(r[0])
    ensures forall i :: 0 <= i < |s| - |r| ==> IsGoSpace(s[i])
  {
    if s != [] && IsGoSpace(s[0]) then TrimLeft(s[1..]) else s
  }

  /** `strings.TrimRightFunc(s, unicode.IsSpace)`: the prefix before the trailing space. */
  function TrimRight(s: string): (r: string)
    ensures |r| <= |s| && r == s[..|r|]
    ensures r == [] || !IsGoSpace(r[|r| - 1])
    ensures forall i :: |r| <= i < |s| ==> IsGoSpace(s[i])
  {
    if s != [] && IsGoSpace(s[|s| - 1]) then TrimRight(s[..|s| - 1]) else s
  }

  /** `strings.TrimSpace`: drops the leading and trailing space. */
  function TrimSpace(s: string): (r: string)
    ensures r != [] ==> !IsGoSpace(r[0]) && !IsGoSpace(r[|r| - 1])
  {
    TrimRight(TrimLeft(s))
  }

  /** A trimmed line is blank exactly when every character of the line is space. */
  lemma TrimSpaceBlank(s: string)
    ensures TrimSpace(s) == [] <==> forall i :: 0 <= i < |s| ==> IsGoSpace(s[i])
  {
    var l := TrimLeft(s);
    if TrimSpace(s) == [] {
      assert l == [];
    }
  }

  /** Every character is below 127. */
  predicate Ascii(s: string)
  {
    forall i :: 0 <= i < |s| ==> s[i] as int < 127
  }

  /** The name a line of the list contributes, if any. */
  function LineEntry(data: string): Option<string>
  {
    if |data| == 0 || data[0] == '/' || data[0] == '*' || data[0] == '!' then None
    else
      var s := TrimSpace(data);
      if |s| == 0 || !Ascii(s) then None
      else Some(s)
  }

  /** The trie built from the lines of the list. */
  function AddLines(t: Trie, lines: seq<string>): Trie
  {
    if lines == [] then t
    else
      var last := lines[|lines| - 1];
      var t' := AddLines(t, lines[..|lines| - 1]);
      match LineEntry(last)
      case None => t'
      case Some(s) => Add(t', s)
  }

  /** One more line of the list adds its entry, if it has one. */
  lemma AddLinesStep(lines: seq<string>, n: nat)
    requires n < |lines|
    ensures AddLines(Empty, lines[..n + 1])
            == match LineEntry(lines[n]) case None => AddLines(Empty, lines[..n]) case Some(s) => Add(AddLines(Empty, lines[..n]), s)
  {
    assert lines[..n + 1][..n] == lines[..n];
  }

  /**
   * The body of the list reading loop for one line: comments, rules and
   * blank lines, and lines with a character at or above 127, are skipped
   * (`None`); any other line gives its trimmed text.
   */
  method Entry(data: string) returns (entry: Option<string>)
    ensures entry == LineEntry(data)
  {
    if |data| == 0 || data[0] == '/' || data[0] == '*' || data[0] == '!' {
      return None;
    }
    var s := TrimSpace(data);
    if |s| == 0 {
      return None;
    }
    for j := 0 to |s|
      invariant Ascii(s[..j])
    {
      assert s[..j + 1] == s[..j] + [s[j]];
      if s[j] as int >= 127 {
        assert !Ascii(s);
        return None;
      }
    }
    assert s[..|s|] == s;
    return Some(s);
  }

  /** The list reading loop: every line's entry, if any, is added to the trie. */
  method ReadList(lines: seq<string>) returns (root: Trie)
    ensures root == AddLines(Empty, lines)
  {
    root := Empty;
    for n := 0 to |lines|
      invariant root == AddLines(Empty, lines[..n])
    {
      AddLinesStep(lines, n);
      var entry := Entry(lines[n]);
      if entry.Some? {
        root := Add(root, entry.value);
      }
    }
    assert lines[..|lines|] == lines;
  }

  /**
   * The trie holds exactly the accepted entries: each is a path of it, and
   * every path of it leads to (a prefix of) one of them.
   */
  lemma {:induction false} AddLinesPaths(lines: seq<string>, q: seq<string>)
    ensures forall n :: 0 <= n < |lines| && LineEntry(lines[n]).Some? ==>
      Contains(AddLines(Empty, lines), Labels(LineEntry(lines[n]).value))
    ensures Contains(AddLines(Empty, lines), q) ==>
      q == [] || exists n :: 0 <= n < |lines| && LineEntry(lines[n]).Some? && IsPrefix(q, Labels(LineEntry(lines[n]).value))
  {
    if lines != [] {
      var init := lines[..|lines| - 1];
      var last := lines[|lines| - 1];
      var t := AddLines(Empty, init);
      AddLinesPaths(init, q);
      forall n | 0 <= n < |lines| && LineEntry(lines[n]).Some?
        ensures Contains(AddLines(Empty, lines), Labels(LineEntry(lines[n]).value))
      {
        var p := Labels(LineEntry(lines[n]).value);
        if n < |lines| - 1 {
          assert lines[n] == init[n];
          AddLinesPaths(init, p);
          if LineEntry(last).Some? {
            InsertPaths(t, Labels(LineEntry(last).value), p);
          }
        } else {
          InsertContains(t, p);
        }
      }
      if Contains(AddLines(Empty, lines), q) && q != [] {
        if LineEntry(last).Some? {
          InsertPaths(t, Labels(LineEntry(last).value), q);
        }
        if Contains(t, q) {
          var n :| 0 <= n < |init| && LineEntry(init[n]).Some? && IsPrefix(q, Labels(LineEntry(init[n]).value));
          assert lines[n] == init[n];
        } else {
          assert IsPrefix(q, Labels(LineEntry(lines[|lines| - 1]).value));
        }
      }
    } else {
      assert Matched(Empty, q) == 0;
    }
  }

  // ---------------------------------------------------------------------
  // Output lines
  // ---------------------------------------------------------------------

  /** The lines joined back together (without their newlines). */
  function Concat(lines: seq<string>): string
  {
    if lines == [] then [] else Concat(lines[..|lines| - 1]) + lines[|lines| - 1]
  }

  /** Writing the piece `s[start..end]` after the first `start` characters gives the first `end`. */
  lemma ConcatPiece(s: string, lines: seq<string>, start: nat, end: nat)
    requires start <= end <= |s| && Concat(lines) == s[..start]
    ensures Concat(lines + [s[start..end]]) == s[..end]
  {
    assert (lines + [s[start..end]])[..|lines|] == lines;
    assert s[..start] + s[start..end] == s[..end];
  }

  /** A line cut by the output loop: at least 80 characters, the last a comma. */
  predicate FullLine(line: string)
  {
    |line| >= 80 && line[|line| - 1] == ','
  }

  /** The first `written` characters of `s` are cut into `lines`, each of them full. */
  predicate Chunked(s: string, lines: seq<string>, written: nat)
  {
    written <= |s| && Concat(lines) == s[..written]
    && forall k :: 0 <= k < |lines| ==> FullLine(lines[k])
  }

  /** Cutting a full line after the chunked prefix keeps it chunked. */
  lemma ChunkFull(s: string, lines: seq<string>, start: nat, end: nat)
    requires Chunked(s, lines, start) && start + 80 <= end <= |s| && s[end - 1] == ','
    ensures Chunked(s, lines + [s[start..end]], end)
  {
    assert s[start..end][end - start - 1] == s[end - 1];
    ConcatPiece(s, lines, start, end);
  }

  /** Writing the rest after the chunked prefix writes all of `s`, with every line but the last full. */
  lemma ChunkRest(s: string, lines: seq<string>, start: nat)
    requires Chunked(s, lines, start)
    ensures var all := lines + [s[start..]];
      Concat(all) == s[..|s|] && forall k :: 0 <= k < |all| - 1 ==> FullLine(all[k])
  {
    ConcatPiece(s, lines, start, |s|);
    assert s[start..] == s[start..|s|];
  }

  /** When the loop runs out at a comma, the chunked lines are the output. */
  lemma ChunkDone(s: string, lines: seq<string>, start: nat)
    requires Chunked(s, lines, start)
    requires s == [] || s[|s| - 1] == ','
    ensures Concat(lines) == s[..start] && forall k :: 0 <= k < |lines| - 1 ==> FullLine(lines[k])
  {
  }

  /** The position just after the next comma at or after `pos`, if there is one. */
  lemma CommaEnd(s: string, pos: nat, idx: int)
    requires pos <= |s| && idx == IndexOf(s[pos..], ',') && idx >= 0
    ensures pos + idx + 1 <= |s| && s[pos + idx] == ','
  {
    assert s[pos..][idx] == ',';
  }

  /**
   * The output loop: cuts `s` after a comma once the current line has at
   * least 80 characters; the rest after the last comma is the final line.
   * `written` counts the characters written (newlines aside): the lines
   * are the first `written` characters of `s`, every line but the last is
   * at least 80 characters long and ends with a comma, and when `s` does
   * not end with a comma all of it is written.
   */
  method ChunkLines(s: string) returns (lines: seq<string>, written: nat)
    ensures written <= |s| && Concat(lines) == s[..written]
    ensures forall k :: 0 <= k < |lines| - 1 ==> FullLine(lines[k])
    ensures s != [] && s[|s| - 1] != ',' ==> written == |s|
  {
    lines := [];
    var start := 0;
    var pos := 0;
    while pos < |s|
      invariant start <= pos <= |s|
      invariant Chunked(s, lines, start)
      invariant pos == 0 || s[pos - 1] == ','
    {
      var idx := IndexOf(s[pos..], ',');
      if idx < 0 {
        ChunkRest(s, lines, start);
        lines := lines + [s[start..]];
        return lines, |s|;
      }
      CommaEnd(s, pos, idx);
      pos := pos + idx + 1;
      if pos - start < 80 {
        continue;
      }
      ChunkFull(s, lines, start, pos);
      lines := lines + [s[start..pos]];
      start := pos;
    }
    ChunkDone(s, lines, start);
    written := start;
  }
}
