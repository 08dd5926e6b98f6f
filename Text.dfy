/** String handling used by the roster loader: ECMAScript `trim`, `split`
    on a one-character separator, `join`, and the parsing of the names text
    area into `name|preference` entries. */
module Text {

  /** The characters ECMAScript's `String.prototype.trim` removes: the
      WhiteSpace and LineTerminator productions. */
  predicate IsSpace(ch: char)
  {
    var c := ch as int;
    c == 0x09 || c == 0x0A || c == 0x0B || c == 0x0C || c == 0x0D || c == 0x20 ||
    c == 0xA0 || c == 0x1680 || (0x2000 <= c <= 0x200A) || c == 0x2028 ||
    c == 0x2029 || c == 0x202F || c == 0x205F || c == 0x3000 || c == 0xFEFF
  }

  /** All characters of `s` are white space. */
  predicate Blank(s: string)
  {
    forall k :: 0 <= k < |s| ==> IsSpace(s[k])
  }

  /** Neither the first nor the last character of `s` is white space. */
  predicate Trimmed(s: string)
  {
    s == [] || (!IsSpace(s[0]) && !IsSpace(s[|s| - 1]))
  }

  /** How many white-space characters `s` starts with. */
  function Lead(s: string): (n: nat)
    ensures n <= |s|
  {
    if s != [] && IsSpace(s[0]) then 1 + Lead(s[1..]) else 0
  }

  /** The length of `s` without its trailing white space. */
  function Keep(s: string): (n: nat)
    ensures n <= |s|
  {
    if s != [] && IsSpace(s[|s| - 1]) then Keep(s[..|s| - 1]) else |s|
  }

  /** `Lead(s)` counts white space only, and all of it. */
  lemma {:induction false} LeadSpec(s: string)
    ensures Blank(s[..Lead(s)])
    ensures Lead(s) < |s| ==> !IsSpace(s[Lead(s)])
  {
    if s != [] && IsSpace(s[0]) {
      LeadSpec(s[1..]);
      assert forall k :: 1 <= k < Lead(s) ==> s[k] == s[1..][k - 1];
    }
  }

  /** `Keep(s)` stops at the last non-space character. */
  lemma {:induction false} KeepSpec(s: string)
    ensures Blank(s[Keep(s)..])
    ensures Keep(s) > 0 ==> !IsSpace(s[Keep(s) - 1])
  {
    if s != [] && IsSpace(s[|s| - 1]) {
      var p := s[..|s| - 1];
      KeepSpec(p);
      assert forall k :: Keep(s) <= k < |s| - 1 ==> s[k] == p[k];
    }
  }

  /** `s.trim()`: the piece of `s` between its leading and its trailing
      white space. */
  function Trim(s: string): string
  {
    var a := s[Lead(s)..];
    a[..Keep(a)]
  }

  /** Trim keeps the piece of `s` that starts after the `Lead(s)` leading
      white-space characters, removes only white space around it, and
      leaves no white space at either end. */
  lemma TrimSpec(s: string)
    ensures Trimmed(Trim(s))
    ensures Lead(s) + |Trim(s)| <= |s| && Trim(s) == s[Lead(s)..Lead(s) + |Trim(s)|]
    ensures Blank(s[..Lead(s)]) && Blank(s[Lead(s) + |Trim(s)|..])
  {
    var i := Lead(s);
    var a := s[i..];
    var m := Keep(a);
    LeadSpec(s);
    KeepSpec(a);
    SliceOfSlice(s, i, m);
    TrimEnds(s);
  }

  /** Slicing a suffix of `s` is slicing `s` itself. A proof hint: Dafny
      knows this, but naming it keeps the callers' proofs small. */
  lemma SliceOfSlice(s: string, i: nat, m: nat)
    requires i + m <= |s|
    ensures s[i..][..m] == s[i..i + m] && s[i..][m..] == s[i + m..]
  {
  }

  /** Neither end of a trimmed string is white space. */
  lemma TrimEnds(s: string)
    ensures Trimmed(Trim(s))
  {
    var i := Lead(s);
    var a := s[i..];
    var m := Keep(a);
    LeadSpec(s);
    KeepSpec(a);
    if m > 0 {
      assert a[..m][0] == s[i];
    }
  }

  /** A string is left alone by trim exactly when it has no white space at
      either end. */
  lemma TrimFixpoint(s: string)
    ensures Trim(s) == s <==> Trimmed(s)
  {
    TrimSpec(s);
    if Trimmed(s) && s != [] {
      assert Lead(s) == 0;
      assert s[0..] == s;
      assert Keep(s) == |s|;
    }
  }

  /** Trim is idempotent. */
  lemma TrimIdempotent(s: string)
    ensures Trim(Trim(s)) == Trim(s)
  {
    TrimSpec(s);
    TrimFixpoint(Trim(s));
  }

  /** Trim yields the empty string exactly for blank input. */
  lemma TrimEmptyIffBlank(s: string)
    ensures Trim(s) == [] <==> Blank(s)
  {
    TrimSpec(s);
    var n := Lead(s);
    if Trim(s) == [] {
      forall k | 0 <= k < |s| ensures IsSpace(s[k]) {
        if k < n {
          assert s[k] == s[..n][k];
        } else {
          assert s[k] == s[n..][k - n];
        }
      }
    }
  }

  /** A character absent from `s` is absent from its trimmed form. */
  lemma TrimContained(s: string, c: char)
    requires c !in s
    ensures c !in Trim(s)
  {
    TrimSpec(s);
    var r, j := Trim(s), Lead(s);
    assert forall m :: 0 <= m < |r| ==> r[m] == s[j + m];
  }

  /** `s.split(c)` for a one-character separator: the pieces between
      occurrences of `c`, always at least one (`"".split(c)` is `[""]`). */
  function Split(s: string, c: char): (r: seq<string>)
    ensures |r| >= 1
    ensures forall k :: 0 <= k < |r| ==> c !in r[k]
  {
    if s == [] then [""]
    else
      var rest := Split(s[1..], c);
      if s[0] == c then [""] + rest
      else [[s[0]] + rest[0]] + rest[1..]
  }

  /** `parts.join(sep)`: the empty array joins to `""`. */
  function Join(parts: seq<string>, sep: string): string
  {
    if |parts| == 0 then ""
    else if |parts| == 1 then parts[0]
    else parts[0] + sep + Join(parts[1..], sep)
  }

  /** Joining the pieces back with the separator restores the string. */
  lemma {:induction false} JoinSplit(s: string, c: char)
    ensures Join(Split(s, c), [c]) == s
  {
    if s != [] {
      var rest := Split(s[1..], c);
      JoinSplit(s[1..], c);
      if s[0] == c {
        assert ([""] + rest)[1..] == rest;
      } else if |rest| > 1 {
        assert ([[s[0]] + rest[0]] + rest[1..])[1..] == rest[1..];
      }
    }
  }

  /** A string with no separator in it is a single piece. */
  lemma {:induction false} SplitNoSeparator(a: string, c: char)
    requires c !in a
    ensures Split(a, c) == [a]
  {
    if a != [] {
      SplitNoSeparator(a[1..], c);
      assert [a[0]] + a[1..] == a;
    }
  }

  /** The first separator ends the first piece. */
  lemma {:induction false} SplitAtFirst(a: string, c: char, b: string)
    requires c !in a
    ensures Split(a + [c] + b, c) == [a] + Split(b, c)
  {
    if a == [] {
      assert (a + [c] + b)[1..] == b;
    } else {
      assert (a + [c] + b)[1..] == a[1..] + [c] + b;
      SplitAtFirst(a[1..], c, b);
      assert [a[0]] + a[1..] == a;
    }
  }

  /** Splitting a join of separator-free pieces gives the pieces back. */
  lemma {:induction false} SplitJoin(parts: seq<string>, c: char)
    requires |parts| >= 1
    requires forall k :: 0 <= k < |parts| ==> c !in parts[k]
    ensures Split(Join(parts, [c]), c) == parts
  {
    if |parts| == 1 {
      SplitNoSeparator(parts[0], c);
    } else {
      SplitJoin(parts[1..], c);
      SplitAtFirst(parts[0], c, Join(parts[1..], [c]));
      assert [parts[0]] + parts[1..] == parts;
    }
  }

  /** `xs.filter(Boolean)` on strings: drops the empty ones, keeps order. */
  function NonEmpty(xs: seq<string>): (r: seq<string>)
    ensures |r| <= |xs|
    ensures forall k :: 0 <= k < |r| ==> r[k] != [] && r[k] in xs
  {
    if xs == [] then []
    else (if xs[0] == [] then [] else [xs[0]]) + NonEmpty(xs[1..])
  }

  /** The lines of the names text area: split on "\n", trim each line,
      drop the empty ones. */
  function Lines(text: string): seq<string>
  {
    NonEmpty(TrimAll(Split(text, '\n')))
  }

  /** `xs.map(l => l.trim())`. */
  function TrimAll(xs: seq<string>): (r: seq<string>)
    ensures |r| == |xs| && forall i :: 0 <= i < |xs| ==> r[i] == Trim(xs[i])
  {
    seq(|xs|, i requires 0 <= i < |xs| => Trim(xs[i]))
  }

  /** Trimming already trimmed strings changes nothing. */
  lemma TrimAllTrimmed(xs: seq<string>)
    requires forall k :: 0 <= k < |xs| ==> Trimmed(xs[k])
    ensures TrimAll(xs) == xs
  {
    forall i | 0 <= i < |xs| ensures Trim(xs[i]) == xs[i] {
      TrimFixpoint(xs[i]);
    }
  }

  /** Every line kept is non-empty, trimmed and holds no line break. */
  lemma LinesWellFormed(text: string)
    ensures forall k :: 0 <= k < |Lines(text)| ==>
      Lines(text)[k] != [] && Trimmed(Lines(text)[k]) && '\n' !in Lines(text)[k]
  {
    var pieces := Split(text, '\n');
    var trimmed := TrimAll(pieces);
    forall i | 0 <= i < |pieces|
      ensures Trimmed(trimmed[i]) && '\n' !in trimmed[i]
    {
      TrimSpec(pieces[i]);
      TrimContained(pieces[i], '\n');
    }
  }

  /** Text made of lines joined by "\n" yields those lines, each trimmed,
      with the ones that trim to nothing dropped. */
  lemma LinesOfJoin(ls: seq<string>)
    requires forall k :: 0 <= k < |ls| ==> '\n' !in ls[k]
    ensures Lines(Join(ls, "\n")) == NonEmpty(TrimAll(ls))
  {
    if ls == [] {
      LinesOfEmpty();
    } else {
      SplitJoin(ls, '\n');
    }
  }

  /** Every non-blank line counts, duplicates included: text made of
      trimmed, non-empty lines joined by "\n" yields exactly those lines. */
  lemma LinesOfCleanJoin(ls: seq<string>)
    requires forall k :: 0 <= k < |ls| ==> ls[k] != [] && Trimmed(ls[k]) && '\n' !in ls[k]
    ensures Lines(Join(ls, "\n")) == ls
  {
    LinesOfJoin(ls);
    TrimAllTrimmed(ls);
    NonEmptyKeepsAll(ls);
  }

  /** A blank (or all white-space) line anywhere in the text is skipped:
      the lines around it are kept, in order, as if it were not there. */
  lemma LinesSkipBlank(xs: seq<string>, b: string, ys: seq<string>)
    requires forall k :: 0 <= k < |xs| ==> '\n' !in xs[k]
    requires forall k :: 0 <= k < |ys| ==> '\n' !in ys[k]
    requires '\n' !in b && Blank(b)
    ensures Lines(Join(xs + [b] + ys, "\n")) == Lines(Join(xs + ys, "\n"))
  {
    var with, without := xs + [b] + ys, xs + ys;
    assert forall k :: 0 <= k < |with| ==> '\n' !in with[k] by {
      NoBreakAppend(xs, [b]);
      NoBreakAppend(xs + [b], ys);
    }
    assert forall k :: 0 <= k < |without| ==> '\n' !in without[k] by {
      NoBreakAppend(xs, ys);
    }
    assert NonEmpty(TrimAll(with)) == NonEmpty(TrimAll(without)) by {
      NonEmptySkipBlank(xs, b, ys);
    }
    LinesAgree(with, without);
  }

  /** Two lists of pieces whose trimmed, filtered forms agree join to texts
      with the same lines. */
  lemma LinesAgree(l1: seq<string>, l2: seq<string>)
    requires forall k :: 0 <= k < |l1| ==> '\n' !in l1[k]
    requires forall k :: 0 <= k < |l2| ==> '\n' !in l2[k]
    requires NonEmpty(TrimAll(l1)) == NonEmpty(TrimAll(l2))
    ensures Lines(Join(l1, "\n")) == Lines(Join(l2, "\n"))
  {
    LinesOfJoin(l1);
    LinesOfJoin(l2);
  }

  /** Two lists of pieces without line breaks concatenate to another one. */
  lemma NoBreakAppend(xs: seq<string>, ys: seq<string>)
    requires forall k :: 0 <= k < |xs| ==> '\n' !in xs[k]
    requires forall k :: 0 <= k < |ys| ==> '\n' !in ys[k]
    ensures forall k :: 0 <= k < |xs + ys| ==> '\n' !in (xs + ys)[k]
  {
    forall k | 0 <= k < |xs + ys| ensures '\n' !in (xs + ys)[k] {
      if k < |xs| { assert (xs + ys)[k] == xs[k]; }
      else { assert (xs + ys)[k] == ys[k - |xs|]; }
    }
  }

  /** The filtered, trimmed lines do not see a blank line. */
  lemma NonEmptySkipBlank(xs: seq<string>, b: string, ys: seq<string>)
    requires Blank(b)
    ensures NonEmpty(TrimAll(xs + [b] + ys)) == NonEmpty(TrimAll(xs + ys))
  {
    var tx, ty := TrimAll(xs), TrimAll(ys);
    TrimEmptyIffBlank(b);
    assert TrimAll([b]) == [[]];
    NonEmptyOne([]);
    TrimAllAppend(xs + [b], ys);
    TrimAllAppend(xs, [b]);
    TrimAllAppend(xs, ys);
    NonEmptyAppend(tx + [[]], ty);
    NonEmptyAppend(tx, [[]]);
    NonEmptyAppend(tx, ty);
  }

  /** `map` over a concatenation is the concatenation of the maps. */
  lemma TrimAllAppend(xs: seq<string>, ys: seq<string>)
    ensures TrimAll(xs + ys) == TrimAll(xs) + TrimAll(ys)
  {
    assert forall i :: 0 <= i < |xs| ==> (xs + ys)[i] == xs[i];
    assert forall i :: |xs| <= i < |xs| + |ys| ==> (xs + ys)[i] == ys[i - |xs|];
  }

  /** An empty text area has no lines. */
  lemma LinesOfEmpty()
    ensures Lines("") == []
  {
    assert Split("", '\n') == [""];
    assert Trim("") == "";
    assert TrimAll([""]) == [""];
  }

  /** Filtering distributes over concatenation: together with its value on
      one element (kept exactly when non-empty) this fixes the result as
      every non-empty element, in order. */
  lemma {:induction false} NonEmptyAppend(xs: seq<string>, ys: seq<string>)
    ensures NonEmpty(xs + ys) == NonEmpty(xs) + NonEmpty(ys)
  {
    if xs != [] {
      assert (xs + ys)[0] == xs[0];
      assert (xs + ys)[1..] == xs[1..] + ys;
      NonEmptyAppend(xs[1..], ys);
    } else {
      assert xs + ys == ys;
    }
  }

  /** One element is kept exactly when it is non-empty. */
  lemma NonEmptyOne(x: string)
    ensures NonEmpty([x]) == if x == [] then [] else [x]
  {
    assert [x][1..] == [];
  }

  /** Filtering a list of non-empty strings keeps all of it. */
  lemma {:induction false} NonEmptyKeepsAll(xs: seq<string>)
    requires forall k :: 0 <= k < |xs| ==> xs[k] != []
    ensures NonEmpty(xs) == xs
  {
    if xs != [] {
      NonEmptyKeepsAll(xs[1..]);
      assert [xs[0]] + xs[1..] == xs;
    }
  }

  /** One roster entry as read from a line. */
  datatype Entry = Entry(name: string, pref: string)

  /** `const [name, pref = ""] = line.split("|").map(s => s.trim())`:
      the first piece is the name, the second (if any) the preference,
      any further pieces are ignored. */
  function ParseEntry(line: string): (e: Entry)
    ensures '|' !in e.name && Trimmed(e.name) && '|' !in e.pref && Trimmed(e.pref)
  {
    var parts := Split(line, '|');
    TrimSpec(parts[0]);
    TrimContained(parts[0], '|');
    if |parts| >= 2 then
      TrimSpec(parts[1]);
      TrimContained(parts[1], '|');
      Entry(Trim(parts[0]), Trim(parts[1]))
    else
      Entry(Trim(parts[0]), "")
  }

  /** A line without `|` is a name with an empty preference. */
  lemma ParseEntryNameOnly(line: string)
    requires '|' !in line
    ensures ParseEntry(line) == Entry(Trim(line), "")
  {
    SplitNoSeparator(line, '|');
  }

  /** In `a|b` the name is `a` trimmed and the preference is the part of `b`
      before any further `|`, trimmed. */
  lemma ParseEntryWithPref(a: string, b: string)
    requires '|' !in a
    ensures ParseEntry(a + "|" + b) == Entry(Trim(a), Trim(Split(b, '|')[0]))
  {
    SplitAtFirst(a, '|', b);
  }

  /** A line such as `|pref` yields an empty name. */
  lemma ParseEntryEmptyName(b: string)
    requires '|' !in b
    ensures ParseEntry("|" + b) == Entry("", Trim(b))
  {
    assert "|" + b == "" + "|" + b;
    ParseEntryWithPref("", b);
    SplitNoSeparator(b, '|');
    assert Split(b, '|')[0] == b;
  }

  /** The entries of the names text area, one per non-blank line. */
  function ParseEntries(text: string): (es: seq<Entry>)
    ensures |es| == |Lines(text)|
  {
    var ls := Lines(text);
    seq(|ls|, i requires 0 <= i < |ls| => ParseEntry(ls[i]))
  }
}
