/** The Python string primitives the tree code relies on: the whitespace test
    shared by `str.isspace`, `str.strip()`, `str.split()` and the regular
    expression class `\s`; `str.strip()`; `str.split()` with no argument;
    `' '.join`; and `re.sub(r'\s+', ' ', s)`. */
module PyStr {

  /** Python 3's whitespace characters (the `str.isspace` set), which is also
      what `strip()`, `split()` and `\s` use on `str` values. */
  predicate IsSpace(c: char)
  {
    || c == ' '
    || ('\t' <= c <= '\r')
    || ('\U{1C}' <= c <= '\U{1F}')
    || c == '\U{85}' || c == '\U{A0}' || c == '\U{1680}'
    || ('\U{2000}' <= c <= '\U{200A}')
    || c == '\U{2028}' || c == '\U{2029}' || c == '\U{202F}'
    || c == '\U{205F}' || c == '\U{3000}'
  }

  predicate AllSpace(s: string)
  {
    forall i | 0 <= i < |s| :: IsSpace(s[i])
  }

  predicate NoSpace(s: string)
  {
    forall i | 0 <= i < |s| :: !IsSpace(s[i])
  }

  /** `s.lstrip()`: the suffix of `s` left after dropping leading whitespace. */
  function TrimLeft(s: string): (r: string)
    ensures |r| <= |s| && r == s[|s| - |r|..]
    ensures r == [] || !IsSpace(r[0])
  {
    if s != [] && IsSpace(s[0]) then TrimLeft(s[1..]) else s
  }

  /** `s.rstrip()`: the prefix of `s` left after dropping trailing whitespace. */
  function TrimRight(s: string): (r: string)
    ensures |r| <= |s| && r == s[..|r|]
    ensures r == [] || !IsSpace(r[|r| - 1])
  {
    if s != [] && IsSpace(s[|s| - 1]) then TrimRight(s[..|s| - 1]) else s
  }

  lemma {:induction false} TrimLeftCutsSpace(s: string)
    ensures AllSpace(s[..|s| - |TrimLeft(s)|])
  {
    if s != [] && IsSpace(s[0]) {
      var t := s[1..];
      TrimLeftCutsSpace(t);
      var k := |t| - |TrimLeft(t)|;
      forall i | 0 <= i < k + 1 ensures IsSpace(s[i]) {
        if i > 0 {
          assert s[i] == t[..k][i - 1];
        }
      }
    }
  }

  lemma {:induction false} TrimRightCutsSpace(s: string)
    ensures AllSpace(s[|TrimRight(s)|..])
  {
    if s != [] && IsSpace(s[|s| - 1]) {
      var t := s[..|s| - 1];
      TrimRightCutsSpace(t);
      var k := |TrimRight(t)|;
      forall i | k <= i < |s| ensures IsSpace(s[i]) {
        if i < |t| {
          assert s[i] == t[k..][i - k];
        }
      }
    }
  }

  /** `s.strip()` */
  function Strip(s: string): (r: string)
  {
    TrimRight(TrimLeft(s))
  }

  /** `strip()` leaves nothing exactly when `s` is all whitespace. */
  lemma StripEmpty(s: string)
    ensures Strip(s) == [] <==> AllSpace(s)
  {
    var l := TrimLeft(s);
    TrimLeftCutsSpace(s);
    TrimRightCutsSpace(l);
    if Strip(s) == [] {
      assert l[0..] == l;
      assert s == s[..|s| - |l|] + l;
    } else {
      assert !IsSpace(s[|s| - |l|]);
    }
  }

  /** Where `strip()` starts cutting what it keeps. */
  function StripStart(s: string): nat
  {
    |s| - |TrimLeft(s)|
  }

  /** What `strip()` leaves: the piece of `s` that starts at `StripStart(s)`;
      everything cut off on either side is whitespace; the piece is empty
      exactly when `s` is all whitespace, and otherwise neither starts nor
      ends with whitespace. */
  lemma StripShape(s: string)
    ensures var r, i := Strip(s), StripStart(s);
      && i + |r| <= |s| && r == s[i..i + |r|]
      && AllSpace(s[..i]) && AllSpace(s[i + |r|..])
      && (r == [] <==> AllSpace(s))
      && (r != [] ==> !IsSpace(r[0]) && !IsSpace(r[|r| - 1]))
  {
    StripEmpty(s);
    StripCut(s);
  }

  lemma StripCut(s: string)
    ensures var r, i := Strip(s), StripStart(s);
      && i + |r| <= |s| && r == s[i..i + |r|]
      && AllSpace(s[..i]) && AllSpace(s[i + |r|..])
  {
    var l := TrimLeft(s);
    var r := TrimRight(l);
    var i := |s| - |l|;
    TrimLeftCutsSpace(s);
    TrimRightCutsSpace(l);
    var k := i + |r|;
    forall j | k <= j < |s| ensures IsSpace(s[j]) {
      assert s[j] == l[|r|..][j - k];
    }
    assert AllSpace(s[k..]);
    SliceOfSuffix(s, i, |r|);
  }

  lemma SliceOfSuffix<T>(s: seq<T>, i: nat, k: nat)
    requires i + k <= |s|
    ensures s[i..][..k] == s[i..i + k]
  {
  }

  /** `strip()` is idempotent: a stripped string has nothing left to strip. */
  lemma {:induction false} StripIdempotent(s: string)
    ensures Strip(Strip(s)) == Strip(s)
  {
    var r := Strip(s);
    StripShape(s);
    if r != [] {
      assert TrimLeft(r) == r;
      assert TrimRight(r) == r;
    }
  }

  /** The longest whitespace-free prefix of `s`. */
  function Word(s: string): (w: string)
    ensures |w| <= |s| && w == s[..|w|] && NoSpace(w)
    ensures |w| < |s| ==> IsSpace(s[|w|])
  {
    if s == [] || IsSpace(s[0]) then [] else [s[0]] + Word(s[1..])
  }

  /** `s.split()`: the maximal runs of non-whitespace characters, in order. */
  function Split(s: string): (ws: seq<string>)
    ensures forall i | 0 <= i < |ws| :: ws[i] != [] && NoSpace(ws[i])
    decreases |s|
  {
    if s == [] then []
    else if IsSpace(s[0]) then Split(s[1..])
    else var w := Word(s); [w] + Split(s[|w|..])
  }

  /** `' '.join(xs)` */
  function JoinSpace(xs: seq<string>): string
  {
    if xs == [] then ""
    else if |xs| == 1 then xs[0]
    else xs[0] + " " + JoinSpace(xs[1..])
  }

  /** `re.sub(r'\s+', ' ', s)`: every maximal run of whitespace becomes one
      space. */
  function Collapse(s: string): (r: string)
    decreases |s|
  {
    if s == [] then []
    else if IsSpace(s[0]) then " " + Collapse(TrimLeft(s))
    else [s[0]] + Collapse(s[1..])
  }

  /** The concatenation of the splits of every string of `xs`. */
  function SplitAll(xs: seq<string>): seq<string>
  {
    if xs == [] then [] else Split(xs[0]) + SplitAll(xs[1..])
  }

  lemma {:induction false} WordBeforeSpace(a: string, x: string)
    requires x != [] && IsSpace(x[0])
    ensures Word(a + x) == Word(a)
  {
    if a != [] && !IsSpace(a[0]) {
      assert (a + x)[1..] == a[1..] + x;
      WordBeforeSpace(a[1..], x);
    }
  }

  /** A space separates words: splitting `a + " " + b` splits `a` and `b`
      independently. */
  lemma {:induction false} SplitAroundSpace(a: string, b: string)
    ensures Split(a + " " + b) == Split(a) + Split(b)
    decreases |a|
  {
    var c := " " + b;
    Concat3(a, " ", b);
    if a == [] {
      assert a + c == c;
      assert c[1..] == b;
    } else if IsSpace(a[0]) {
      DropConcat(a, c, 1);
      Concat3(a[1..], " ", b);
      SplitAroundSpace(a[1..], b);
    } else {
      WordBeforeSpace(a, c);
      var w := Word(a);
      DropConcat(a, c, |w|);
      Concat3(a[|w|..], " ", b);
      SplitAroundSpace(a[|w|..], b);
      Concat3([w], Split(a[|w|..]), Split(b));
    }
  }

  /** Splitting a space-join splits each part. */
  lemma {:induction false} SplitJoin(xs: seq<string>)
    ensures Split(JoinSpace(xs)) == SplitAll(xs)
  {
    if xs == [] {
    } else if |xs| == 1 {
      assert SplitAll(xs[1..]) == [];
    } else {
      SplitAroundSpace(xs[0], JoinSpace(xs[1..]));
      SplitJoin(xs[1..]);
    }
  }

  /** `split()` inverts `' '.join` on lists of words: a list of non-empty,
      whitespace-free strings comes back unchanged. */
  lemma {:induction false} SplitJoinWords(ws: seq<string>)
    requires forall i | 0 <= i < |ws| :: ws[i] != [] && NoSpace(ws[i])
    ensures Split(JoinSpace(ws)) == ws
  {
    SplitJoin(ws);
    SplitAllWords(ws);
  }

  lemma {:induction false} SplitAllWords(ws: seq<string>)
    requires forall i | 0 <= i < |ws| :: ws[i] != [] && NoSpace(ws[i])
    ensures SplitAll(ws) == ws
  {
    if ws != [] {
      SplitWord(ws[0]);
      SplitAllWords(ws[1..]);
    }
  }

  lemma SplitWord(w: string)
    requires w != [] && NoSpace(w)
    ensures Split(w) == [w]
  {
    assert Word(w) == w;
    assert w[|w|..] == [];
  }

  lemma {:induction false} CollapseWord(w: string, t: string)
    requires NoSpace(w)
    ensures Collapse(w + t) == w + Collapse(t)
  {
    if w != [] {
      assert !IsSpace(w[0]);
      assert w == [w[0]] + w[1..];
      assert (w + t)[0] == w[0];
      assert (w + t)[1..] == w[1..] + t;
      assert Collapse(w + t) == [w[0]] + Collapse(w[1..] + t);
      CollapseWord(w[1..], t);
    } else {
      assert w + t == t;
    }
  }

  lemma {:induction false} SplitSkipsSpace(s: string)
    ensures Split(s) == Split(TrimLeft(s))
    decreases |s|
  {
    if s != [] && IsSpace(s[0]) {
      SplitSkipsSpace(s[1..]);
    }
  }

  lemma {:induction false} TrimRightKeepsHead(a: string, b: string)
    requires b != [] && !IsSpace(b[0])
    ensures TrimRight(a + b) == a + TrimRight(b)
    decreases |b|
  {
    if IsSpace(b[|b| - 1]) {
      assert (a + b)[..|a + b| - 1] == a + b[..|b| - 1];
      TrimRightKeepsHead(a, b[..|b| - 1]);
    }
  }

  /** The normaliser `re.sub(r'\s+', ' ', s).strip()` is `' '.join(s.split())`:
      it yields the words of `s`, in order, separated by single spaces. */
  lemma {:induction false} CollapseStripIsJoinSplit(s: string)
    ensures Strip(Collapse(s)) == JoinSpace(Split(s))
    decreases |s|, 1
  {
    if s == [] {
    } else if IsSpace(s[0]) {
      var t := TrimLeft(s);
      SplitSkipsSpace(s);
      CollapseStripIsJoinSplit(t);
      StripLeadingSpace(Collapse(t));
    } else {
      CollapseStripWordFirst(s);
    }
  }

  lemma StripLeadingSpace(x: string)
    ensures Strip(" " + x) == Strip(x)
  {
    assert (" " + x)[1..] == x;
  }

  lemma {:induction false} CollapseStripWordFirst(s: string)
    requires s != [] && !IsSpace(s[0])
    ensures Strip(Collapse(s)) == JoinSpace(Split(s))
    decreases |s|, 0
  {
    var w := Word(s);
    var rest := s[|w|..];
    assert s == w + rest;
    WordRest(w, rest);
    if rest == [] {
      NoSpaceStripped(w);
      assert Collapse(s) == w && Split(s) == [w];
    } else {
      var t := TrimLeft(rest);
      SpaceRun(rest);
      Concat3(w, " ", Collapse(t));
      if t == [] {
        WordThenSpaces(w);
      } else {
        CollapseStripIsJoinSplit(t);
        WordThenText(w, t);
      }
    }
  }

  lemma Concat3<T>(a: seq<T>, b: seq<T>, c: seq<T>)
    ensures a + (b + c) == a + b + c
  {
  }

  lemma DropConcat<T>(a: seq<T>, b: seq<T>, k: nat)
    requires k <= |a|
    ensures (a + b)[k..] == a[k..] + b
  {
  }

  /** Of two ways to split one sequence, the shorter tail ends the longer. */
  lemma CommonTail<T>(a: seq<T>, b: seq<T>, c: seq<T>, d: seq<T>)
    requires a + b == c + d && |b| <= |d|
    ensures b == d[|d| - |b|..]
  {
    assert (a + b)[|a|..] == b;
    DropPast(c, d, |c| + |d| - |b|);
  }

  lemma DropPast<T>(a: seq<T>, b: seq<T>, k: nat)
    requires |a| <= k <= |a| + |b|
    ensures (a + b)[k..] == b[k - |a|..]
  {
  }

  /** A word followed by nothing or by whitespace comes through collapsing
      unchanged and is the first piece of the split. */
  lemma WordRest(w: string, rest: string)
    requires w != [] && NoSpace(w) && (rest == [] || IsSpace(rest[0]))
    ensures Collapse(w + rest) == w + Collapse(rest)
    ensures Split(w + rest) == [w] + Split(rest)
  {
    CollapseWord(w, rest);
    assert Word(w) == w;
    if rest == [] {
      assert w + rest == w;
      SplitWord(w);
    } else {
      WordBeforeSpace(w, rest);
      assert (w + rest)[|w|..] == rest;
    }
  }

  /** A whitespace run collapses to one space, and splitting skips it. */
  lemma SpaceRun(rest: string)
    requires rest != [] && IsSpace(rest[0])
    ensures Collapse(rest) == " " + Collapse(TrimLeft(rest))
    ensures Split(rest) == Split(TrimLeft(rest))
    ensures TrimLeft(rest) == [] || !IsSpace(TrimLeft(rest)[0])
  {
    SplitSkipsSpace(rest);
  }

  lemma NoSpaceStripped(w: string)
    requires w != [] && NoSpace(w)
    ensures Strip(w) == w && JoinSpace([w]) == w
  {
  }

  lemma WordThenSpaces(w: string)
    requires w != [] && NoSpace(w)
    ensures Strip(w + " " + Collapse([])) == JoinSpace([w] + [])
  {
    var s := w + " ";
    assert w + " " + Collapse([]) == s;
    assert s[0] == w[0];
    assert TrimLeft(s) == s;
    assert s[..|s| - 1] == w;
    assert TrimRight(s) == TrimRight(w);
    assert !IsSpace(w[|w| - 1]);
    assert TrimRight(w) == w;
    assert [w] + [] == [w];
  }

  lemma WordThenText(w: string, t: string)
    requires w != [] && NoSpace(w) && t != [] && !IsSpace(t[0])
    requires Strip(Collapse(t)) == JoinSpace(Split(t))
    ensures Strip(w + " " + Collapse(t)) == JoinSpace([w] + Split(t))
  {
    assert Collapse(t) == [t[0]] + Collapse(t[1..]);
    assert Split(t) == [Word(t)] + Split(t[|Word(t)|..]);
    StripAfterWord(w + " ", Collapse(t));
    JoinCons(w, Split(t));
  }

  /** Text that starts with non-whitespace is left alone at the front. */
  lemma StripAfterWord(a: string, x: string)
    requires a != [] && !IsSpace(a[0]) && x != [] && !IsSpace(x[0])
    ensures Strip(a + x) == a + Strip(x)
  {
    assert (a + x)[0] == a[0];
    assert TrimLeft(a + x) == a + x;
    assert TrimLeft(x) == x;
    TrimRightKeepsHead(a, x);
  }

  lemma JoinCons(w: string, ws: seq<string>)
    requires ws != []
    ensures JoinSpace([w] + ws) == w + " " + JoinSpace(ws)
  {
    var xs := [w] + ws;
    assert xs[0] == w && xs[1..] == ws;
  }
}
