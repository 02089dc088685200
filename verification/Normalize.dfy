/** Whitespace normalisation of configuration strings: a UTF-8 string is rewritten,
    in a buffer of the size of the trimmed input, as its words joined by spaces. */
module Normalize {
  import opened Bytes

  /** A UTF-8 character as bytes. */
  type Char = seq<byte>

  /** xmlUTF8Size: the length a first byte announces, -1 for none. */
  function Size(first: byte): int
  {
    if first < 0x80 then 1
    else if first < 0xc0 then -1
    else if first < 0xe0 then 2
    else if first < 0xf0 then 3
    else if first < 0xf8 then 4
    else -1
  }

  /** A character of a NUL-free string that passed the UTF-8 check. */
  predicate IsChar(c: Char)
  {
    c != [] && c[0] != 0 && Size(c[0]) == |c| && forall k | 0 < k < |c| :: 0x80 <= c[k] < 0xc0
  }

  predicate Valid(s: seq<Char>)
  {
    forall k | 0 <= k < |s| :: IsChar(s[k])
  }

  const SPACE: Char := [0x20]

  /** IsSpace, with the fall-through of the case E2 80 into E2 81. */
  predicate IsSpace(c: Char)
    requires IsChar(c)
  {
    match |c|
    case 1 => 0x09 <= c[0] <= 0x0d || c[0] == 0x20
    case 2 => c[1] == 0x85 || c[1] == 0xa0
    case 3 =>
      if c[0] == 0xe1 then (c[1] == 0x9a && c[2] == 0x80) || (c[1] == 0xa0 && c[2] == 0x8e)
      else if c[0] == 0xe2 then
        if c[1] == 0x80 && (0x80 <= c[2] <= 0x8a || c[2] == 0xa8 || c[2] == 0xa9 || c[2] == 0xaf) then true
        else if c[1] == 0x80 || c[1] == 0x81 then c[2] == 0x9f
        else false
      else c[0] == 0xe3 && c[1] == 0x80 && c[2] == 0x80
    case _ => false
  }

  /** The encoding of a code point other than NUL. */
  function Utf8(u: nat): (c: Char)
    requires 0 < u < 0x11_0000
    ensures IsChar(c)
  {
    if u < 0x80 then [u]
    else if u < 0x800 then [0xc0 + u / 64, 0x80 + u % 64]
    else if u < 0x1_0000 then [0xe0 + u / 4096, 0x80 + u / 64 % 64, 0x80 + u % 64]
    else [0xf0 + u / 0x4_0000, 0x80 + u / 4096 % 64, 0x80 + u / 64 % 64, 0x80 + u % 64]
  }

  /** The white space of the Unicode character database, with U+180E as in the
      versions of the time. */
  predicate WhiteSpace(u: nat)
  {
    || 0x09 <= u <= 0x0d || u == 0x20 || u == 0x85 || u == 0xa0 || u == 0x1680 || u == 0x180e
    || 0x2000 <= u <= 0x200a || u == 0x2028 || u == 0x2029 || u == 0x202f || u == 0x205f || u == 0x3000
  }

  /** Exactly the characters taken for spaces: white space, any two-byte
      character whose last byte is that of U+0085 or U+00A0, and U+201F. */
  lemma IsSpaceIff(u: nat)
    requires 0 < u < 0x11_0000
    ensures IsSpace(Utf8(u)) <==> WhiteSpace(u) || (0x80 <= u < 0x800 && (u % 64 == 0x05 || u % 64 == 0x20)) || u == 0x201f
  {
  }

  /** The letter U+00E0 is one of them. */
  lemma LetterTakenForSpace()
    ensures IsSpace(Utf8(0xe0)) && !WhiteSpace(0xe0)
  {
  }

  function Flat(s: seq<Char>): seq<byte>
  {
    if s == [] then [] else s[0] + Flat(s[1..])
  }

  lemma {:induction false} FlatConcat(a: seq<Char>, b: seq<Char>)
    ensures Flat(a + b) == Flat(a) + Flat(b)
  {
    if a == [] {
      assert a + b == b;
    } else {
      assert (a + b)[1..] == a[1..] + b;
      FlatConcat(a[1..], b);
    }
  }

  /** How many characters other than spaces a string starts with. */
  function RunLength(s: seq<Char>): (n: nat)
    requires Valid(s)
    ensures n <= |s|
  {
    if s == [] || IsSpace(s[0]) then 0 else 1 + RunLength(s[1..])
  }

  /** The maximal runs of characters other than spaces. */
  function Words(s: seq<Char>): seq<seq<Char>>
    requires Valid(s)
    decreases |s|
  {
    if s == [] then []
    else if IsSpace(s[0]) then Words(s[1..])
    else [s[..RunLength(s)]] + Words(s[RunLength(s)..])
  }

  function Join(ws: seq<seq<Char>>): seq<Char>
  {
    if ws == [] then []
    else if |ws| == 1 then ws[0]
    else ws[0] + [SPACE] + Join(ws[1..])
  }

  /** What the normalised string is to be. */
  function Normal(s: seq<Char>): seq<Char>
    requires Valid(s)
  {
    Join(Words(s))
  }

  predicate NoSpace(w: seq<Char>)
  {
    Valid(w) && forall k | 0 <= k < |w| :: !IsSpace(w[k])
  }

  predicate AllSpace(g: seq<Char>)
  {
    Valid(g) && forall k | 0 <= k < |g| :: IsSpace(g[k])
  }

  /** Words with a gap before each and one at the end. */
  function Spread(gaps: seq<seq<Char>>, ws: seq<seq<Char>>): seq<Char>
    requires |gaps| == |ws| + 1
  {
    if ws == [] then gaps[0] else gaps[0] + ws[0] + Spread(gaps[1..], ws[1..])
  }

  /** Gaps of spaces, not empty between two words, and words without any. */
  predicate Separated(gaps: seq<seq<Char>>, ws: seq<seq<Char>>)
  {
    && |gaps| == |ws| + 1
    && (forall k | 0 <= k < |gaps| :: AllSpace(gaps[k]))
    && (forall k | 0 < k < |ws| :: gaps[k] != [])
    && (forall k | 0 <= k < |ws| :: ws[k] != [] && NoSpace(ws[k]))
  }

  lemma {:induction false} SpacesFirst(g: seq<Char>, s: seq<Char>)
    requires AllSpace(g) && Valid(s)
    ensures Words(g + s) == Words(s)
  {
    if g == [] {
      assert g + s == s;
    } else {
      assert (g + s)[1..] == g[1..] + s;
      SpacesFirst(g[1..], s);
    }
  }

  lemma {:induction false} RunFirst(w: seq<Char>, s: seq<Char>)
    requires NoSpace(w) && Valid(s) && (s == [] || IsSpace(s[0]))
    ensures RunLength(w + s) == |w|
  {
    if w == [] {
      assert w + s == s;
    } else {
      assert (w + s)[1..] == w[1..] + s;
      RunFirst(w[1..], s);
    }
  }

  /** However the spaces are spread, the words are found. */
  lemma {:induction false} WordsUnique(gaps: seq<seq<Char>>, ws: seq<seq<Char>>)
    requires Separated(gaps, ws)
    ensures Valid(Spread(gaps, ws)) && Words(Spread(gaps, ws)) == ws
    decreases |ws|
  {
    if ws == [] {
      SpacesFirst(gaps[0], []);
      assert gaps[0] + [] == gaps[0];
    } else {
      var rest := Spread(gaps[1..], ws[1..]);
      WordsUnique(gaps[1..], ws[1..]);
      var s := ws[0] + rest;
      assert gaps[0] + ws[0] + rest == gaps[0] + s;
      SpacesFirst(gaps[0], s);
      assert rest == [] || IsSpace(rest[0]) by {
        if |ws| == 1 {
          assert rest == gaps[1];
        } else {
          assert rest == gaps[1] + (ws[1] + Spread(gaps[2..], ws[2..])) by {
            assert gaps[1..][1..] == gaps[2..] && ws[1..][1..] == ws[2..];
          }
        }
      }
      RunFirst(ws[0], rest);
      assert s[..|ws[0]|] == ws[0] && s[|ws[0]|..] == rest;
      assert ws == [ws[0]] + ws[1..];
    }
  }

  lemma {:induction false} WordsAreWords(s: seq<Char>)
    requires Valid(s)
    ensures forall k | 0 <= k < |Words(s)| :: Words(s)[k] != [] && NoSpace(Words(s)[k])
    decreases |s|
  {
    if s != [] {
      if IsSpace(s[0]) {
        WordsAreWords(s[1..]);
      } else {
        RunIsWord(s);
        WordsAreWords(s[RunLength(s)..]);
      }
    }
  }

  lemma {:induction false} RunIsWord(s: seq<Char>)
    requires Valid(s)
    ensures NoSpace(s[..RunLength(s)])
  {
    if s != [] && !IsSpace(s[0]) {
      RunIsWord(s[1..]);
      assert s[..RunLength(s)] == [s[0]] + s[1..][..RunLength(s[1..])];
    }
  }

  /** Words joined by single spaces are spread over gaps of one space. */
  lemma {:induction false} JoinSpreads(ws: seq<seq<Char>>)
    requires forall k | 0 <= k < |ws| :: ws[k] != [] && NoSpace(ws[k])
    ensures Valid(Join(ws)) && Words(Join(ws)) == ws
  {
    if ws != [] {
      assert AllSpace([SPACE]) && AllSpace([]);
      hide IsSpace, IsChar, NoSpace, AllSpace, Join, Words, Valid;
      var gaps := seq(|ws| + 1, k => if 0 < k < |ws| then [SPACE] else []);
      assert Separated(gaps, ws);
      JoinIsSpread(ws, gaps);
      assert gaps[0] + Join(ws) == Join(ws);
      WordsUnique(gaps, ws);
    }
  }

  lemma {:induction false} JoinIsSpread(ws: seq<seq<Char>>, gaps: seq<seq<Char>>)
    requires ws != [] && |gaps| == |ws| + 1
    requires gaps[|ws|] == [] && forall k | 0 < k < |ws| :: gaps[k] == [SPACE]
    ensures Spread(gaps, ws) == gaps[0] + Join(ws)
  {
    var tail := Spread(gaps[1..], ws[1..]);
    assert Spread(gaps, ws) == gaps[0] + ws[0] + tail;
    if |ws| == 1 {
      assert tail == [] && gaps[0] + ws[0] + [] == gaps[0] + ws[0];
    } else {
      JoinIsSpread(ws[1..], gaps[1..]);
      assert gaps[0] + ws[0] + ([SPACE] + Join(ws[1..])) == gaps[0] + (ws[0] + [SPACE] + Join(ws[1..]));
    }
  }

  /** Every space of the string is a plain blank between two characters that are none. */
  predicate SingleBlanks(s: seq<Char>)
  {
    Valid(s) && forall k | 0 <= k < |s| && IsSpace(s[k]) ::
      s[k] == [0x20] && 0 < k < |s| - 1 && !IsSpace(s[k - 1]) && !IsSpace(s[k + 1])
  }

  lemma {:induction false} JoinBlanks(ws: seq<seq<Char>>)
    requires forall k | 0 <= k < |ws| :: ws[k] != [] && NoSpace(ws[k])
    ensures SingleBlanks(Join(ws)) && (ws != [] ==> Join(ws) != [] && !IsSpace(Join(ws)[0]))
  {
    hide IsSpace, IsChar;
    if |ws| > 1 {
      JoinBlanks(ws[1..]);
      OneBlankMore(ws[0], Join(ws[1..]));
    }
  }

  lemma OneBlankMore(w: seq<Char>, t: seq<Char>)
    requires w != [] && NoSpace(w) && SingleBlanks(t) && t != [] && !IsSpace(t[0])
    ensures SingleBlanks(w + [SPACE] + t) && !IsSpace((w + [SPACE] + t)[0])
  {
    var s, n := w + [SPACE] + t, |w| + 1;
    assert IsChar(SPACE);
    hide IsSpace, IsChar;
    forall k | 0 <= k < |s|
      ensures IsChar(s[k])
      ensures IsSpace(s[k]) ==> s[k] == [0x20] && 0 < k < |s| - 1 && !IsSpace(s[k - 1]) && !IsSpace(s[k + 1])
    {
      if k < |w| {
        assert s[k] == w[k];
      } else if k > |w| {
        assert s[k] == t[k - n];
        if k > n { assert s[k - 1] == t[k - 1 - n]; }
        if k < |s| - 1 { assert s[k + 1] == t[k + 1 - n]; }
      } else {
        assert s[k - 1] == w[k - 1] && s[k + 1] == t[0];
      }
    }
  }

  /** The same as bytes: no control character that counts as a space, and blanks only one
      at a time between other bytes. */
  predicate Tidy(b: seq<byte>)
  {
    forall j | 0 <= j < |b| :: TidyAt(b, j)
  }

  predicate TidyAt(b: seq<byte>, j: nat)
    requires j < |b|
  {
    && !(0x09 <= b[j] <= 0x0d)
    && (b[j] == 0x20 ==> 0 < j < |b| - 1 && b[j - 1] != 0x20 && b[j + 1] != 0x20)
  }

  /** The byte at j of the flat string belongs to one character of it. */
  lemma {:induction false} ByteOf(s: seq<Char>, j: nat) returns (k: nat, o: nat)
    requires Valid(s) && j < |Flat(s)|
    ensures k < |s| && o < |s[k]| && Flat(s)[j] == s[k][o] && j == |Flat(s[..k])| + o
    decreases |s|
  {
    hide IsChar;
    if j < |s[0]| {
      k, o := 0, j;
      assert s[..0] == [];
    } else {
      var i;
      i, o := ByteOf(s[1..], j - |s[0]|);
      k := i + 1;
      assert s[..k] == [s[0]] + s[1..][..i];
      FlatConcat([s[0]], s[1..][..i]);
      assert Flat([s[0]]) == s[0] + Flat([]);
    }
  }

  lemma FlatTidy(s: seq<Char>)
    requires SingleBlanks(s)
    ensures Tidy(Flat(s))
  {
    hide IsSpace, IsChar, Flat;
    var b := Flat(s);
    forall j | 0 <= j < |b|
      ensures TidyAt(b, j)
    {
      var k, o := ByteOf(s, j);
      if b[j] < 0x80 {
        OneByte(s[k], o);
        if b[j] == 0x20 {
          BlankAt(s, k, j);
        }
      }
    }
  }

  /** Bytes below 0x80 are characters of their own. */
  lemma OneByte(c: Char, o: nat)
    requires IsChar(c) && o < |c| && c[o] < 0x80
    ensures c == [c[o]] && o == 0 && (IsSpace(c) <==> 0x09 <= c[o] <= 0x0d || c[o] == 0x20)
  {
  }

  lemma BlankAt(s: seq<Char>, k: nat, j: nat)
    requires SingleBlanks(s) && k < |s| && s[k] == [0x20] && j == |Flat(s[..k])|
    ensures var b := Flat(s); 0 < j < |b| - 1 && b[j - 1] != 0x20 && b[j + 1] != 0x20
  {
    var x, y := s[k - 1], s[k + 1];
    var a, z := s[..k - 1], s[k + 2..];
    NoBlank(x);
    NoBlank(y);
    hide IsSpace, IsChar, Flat;
    assert s[..k] == a + [x];
    assert s == (a + [x]) + ([[0x20]] + ([y] + z));
    FlatThree(a, x, y, z);
    Between(Flat(a), x, y, Flat(z));
  }

  lemma FlatThree(a: seq<Char>, x: Char, y: Char, z: seq<Char>)
    ensures Flat(a + [x]) == Flat(a) + x
    ensures Flat((a + [x]) + ([[0x20]] + ([y] + z))) == (Flat(a) + x) + ([0x20] + (y + Flat(z)))
  {
    hide Flat;
    FlatConcat(a + [x], [[0x20]] + ([y] + z));
    FlatConcat([[0x20]], [y] + z);
    FlatConcat([y], z);
    FlatConcat(a, [x]);
    FlatOne(x);
    FlatOne([0x20]);
    FlatOne(y);
  }

  lemma Between(a: seq<byte>, x: Char, y: Char, z: seq<byte>)
    requires x != [] && y != []
    ensures var b, j := (a + x) + ([0x20] + (y + z)), |a + x|;
      0 < j < |b| - 1 && b[j - 1] == x[|x| - 1] && b[j + 1] == y[0]
  {
  }

  lemma FlatOne(c: Char)
    ensures Flat([c]) == c
  {
    assert Flat([c]) == c + Flat([]);
  }

  lemma NoBlank(c: Char)
    requires IsChar(c) && !IsSpace(c)
    ensures c != [] && c[0] != 0x20 && c[|c| - 1] != 0x20
  {
    if |c| == 1 {
      assert c[0] != 0x20;
    } else {
      assert 0x80 <= c[|c| - 1];
    }
  }

  lemma NormalBlanks(s: seq<Char>)
    requires Valid(s)
    ensures SingleBlanks(Normal(s))
  {
    hide IsSpace, IsChar;
    WordsAreWords(s);
    JoinBlanks(Words(s));
  }

  /** Normalising again changes nothing; the words stay what they were; and a
      result that is not empty starts and ends with a word. */
  lemma Idempotent(s: seq<Char>)
    requires Valid(s)
    ensures Valid(Normal(s)) && Words(Normal(s)) == Words(s) && Normal(Normal(s)) == Normal(s)
  {
    WordsAreWords(s);
    JoinSpreads(Words(s));
  }

  /** What the copying loop appends for the rest of the string, `first` telling
      that spaces were just passed. */
  function Emitted(s: seq<Char>, first: bool): seq<Char>
    requires Valid(s)
  {
    if s == [] then []
    else if IsSpace(s[0]) then Emitted(s[1..], true)
    else (if first then [SPACE] else []) + [s[0]] + Emitted(s[1..], false)
  }

  /** What is emitted for one character, or in front of a space. */
  lemma EmittedNext(s: seq<Char>)
    requires Valid(s)
    ensures s == [] || IsSpace(s[0]) ==> Emitted(s, false) == Emitted(s, true)
    ensures s != [] && !IsSpace(s[0]) ==> Emitted(s, false) == [s[0]] + Emitted(s[1..], false)
  {
    hide IsSpace, IsChar;
    if s != [] && !IsSpace(s[0]) {
      assert [] + [s[0]] == [s[0]];
    }
  }

  lemma {:induction false} EmittedRun(s: seq<Char>)
    requires Valid(s)
    ensures Emitted(s, false) == s[..RunLength(s)] + Emitted(s[RunLength(s)..], true)
  {
    hide Emitted, IsSpace, IsChar;
    EmittedNext(s);
    if s == [] || IsSpace(s[0]) {
      assert s[..0] == [] && s[0..] == s && [] + Emitted(s, true) == Emitted(s, true);
    } else {
      var t, n := s[1..], RunLength(s[1..]);
      EmittedRun(t);
      assert s[..n + 1] == [s[0]] + t[..n] && s[n + 1..] == t[n..];
      assert [s[0]] + (t[..n] + Emitted(t[n..], true)) == [s[0]] + t[..n] + Emitted(t[n..], true);
    }
  }

  lemma EmittedFirst(s: seq<Char>)
    requires Valid(s) && s != [] && !IsSpace(s[0])
    ensures Emitted(s, true) == [SPACE] + Emitted(s, false)
  {
    hide IsSpace, IsChar;
    var rest := Emitted(s[1..], false);
    assert [] + [s[0]] + rest == [s[0]] + rest;
    assert [SPACE] + [s[0]] + rest == [SPACE] + ([s[0]] + rest);
  }

  lemma EmittedWord(s: seq<Char>)
    requires Valid(s) && s != [] && !IsSpace(s[0])
    ensures RunLength(s) > 0
    ensures Emitted(s, true) == [SPACE] + (s[..RunLength(s)] + Emitted(s[RunLength(s)..], true))
    ensures Words(s) == [s[..RunLength(s)]] + Words(s[RunLength(s)..])
  {
    hide IsSpace, IsChar, Emitted;
    EmittedRun(s);
    EmittedFirst(s);
  }

  lemma JoinCons(w: seq<Char>, ws: seq<seq<Char>>)
    ensures Join([w] + ws) == w + if ws == [] then [] else [SPACE] + Join(ws)
  {
    assert ([w] + ws)[1..] == ws;
    if ws == [] {
      assert w + [] == w;
    } else {
      assert w + ([SPACE] + Join(ws)) == w + [SPACE] + Join(ws);
    }
  }

  lemma {:induction false} EmittedJoins(s: seq<Char>)
    requires Valid(s)
    ensures Emitted(s, true) == if Words(s) == [] then [] else [SPACE] + Join(Words(s))
    decreases |s|
  {
    hide IsSpace, IsChar, Join, RunLength;
    if s != [] {
      if IsSpace(s[0]) {
        EmittedJoins(s[1..]);
      } else {
        EmittedWord(s);
        var run, rest := s[..RunLength(s)], s[RunLength(s)..];
        EmittedJoins(rest);
        JoinCons(run, Words(rest));
      }
    }
  }

  /** From the first word on, the loop emits the normal form. */
  lemma EmittedNormal(s: seq<Char>)
    requires Valid(s) && (s == [] || !IsSpace(s[0]))
    ensures Emitted(s, false) == Normal(s)
  {
    hide IsSpace, IsChar, Emitted, Words, Join;
    if s == [] {
      EmptyNormal();
    } else {
      EmittedJoins(s);
      EmittedWord(s);
      EmittedFirst(s);
      DropFirst(SPACE, Emitted(s, false), Normal(s));
    }
  }

  lemma EmptyNormal()
    ensures Emitted([], false) == [] && Normal([]) == []
  {
  }

  lemma DropFirst(c: Char, s: seq<Char>, t: seq<Char>)
    requires [c] + s == [c] + t
    ensures s == t
  {
    assert ([c] + s)[1..] == s && ([c] + t)[1..] == t;
  }

  lemma DropSpace(s: seq<Char>)
    requires Valid(s) && s != [] && IsSpace(s[0])
    ensures Words(s) == Words(s[1..])
  {
  }

  /** What one turn of the loop appends to what it has. */
  lemma EmittedStep(done: seq<Char>, s: seq<Char>, first: bool)
    requires Valid(s) && s != []
    ensures IsSpace(s[0]) ==> Emitted(s, first) == Emitted(s[1..], true)
    ensures var gap := if first then done + [SPACE] else done;
      !IsSpace(s[0]) ==> done + Emitted(s, first) == (gap + [s[0]]) + Emitted(s[1..], false)
  {
  }

  lemma EmittedEnd(s: seq<Char>, first: bool)
    requires s == []
    ensures Emitted(s, first) == []
  {
  }

  /** CopyChar: copies one character to out[to..], last byte first. */
  method CopyChar(out: array<byte>, to: nat, c: Char) returns (ok: bool)
    requires IsChar(c) && to + |c| <= out.Length
    modifies out
    ensures ok && out[..to] == old(out[..to]) && out[to..to + |c|] == c
  {
    var size := Size(c[0]);
    if size >= 4 { out[to + 3] := c[3]; }
    if size >= 3 { out[to + 2] := c[2]; }
    if size >= 2 { out[to + 1] := c[1]; }
    if size >= 1 { out[to] := c[0]; }
    ok := size >= 1;
  }

  /** Copies a character to the write cursor s and moves the cursor past it, by
      the size read back from the buffer. */
  method Append(buffer: array<byte>, s: nat, c: Char, ghost done: seq<Char>) returns (s': nat)
    requires IsChar(c) && s + |c| <= buffer.Length && buffer[..s] == Flat(done)
    modifies buffer
    ensures s' == s + |c| && buffer[..s'] == Flat(done + [c])
  {
    var _ := CopyChar(buffer, s, c);
    assert buffer[s] == buffer[s..s + |c|][0];
    s' := s + Size(buffer[s]);
    FlatConcat(done, [c]);
    assert Flat([c]) == c + Flat([]);
    assert buffer[..s'] == buffer[..s] + buffer[s..s'];
  }

  /** NormalizeString, on a valid string given by its characters: the buffer gets
      one byte more than the trimmed input has, the write cursor stays inside it,
      and up to the terminator it finally holds the normal form. */
  method NormalizeString(str: seq<Char>) returns (buffer: array<byte>, end: nat)
    requires Valid(str)
    ensures fresh(buffer) && buffer.Length <= |Flat(str)| + 1
    ensures end < buffer.Length && buffer[end] == 0 && buffer[..end] == Flat(Normal(str))
    ensures Tidy(buffer[..end])
  {
    NormalBlanks(str);
    FlatTidy(Normal(str));
    var i := TrimLeft(str);
    var trimmed := Flat(str[i..]);
    FlatConcat(str[..i], str[i..]);
    assert str == str[..i] + str[i..];
    var total := |trimmed| + 1;
    buffer := new byte[total](k requires 0 <= k < total => if k < |trimmed| then trimmed[k] else 0);
    EmittedNormal(str[i..]);
    end := CopyWords(str, i, buffer);
  }

  /** The number of spaces the string starts with. */
  method TrimLeft(str: seq<Char>) returns (i: nat)
    requires Valid(str)
    ensures i <= |str| && Normal(str[i..]) == Normal(str)
    ensures i < |str| ==> !IsSpace(str[i])
  {
    hide IsSpace, IsChar, Words, Join;
    i := 0;
    assert str[0..] == str;
    while i < |str| && IsSpace(str[i])
      invariant i <= |str| && Words(str[i..]) == Words(str)
    {
      DropSpace(str[i..]);
      assert str[i..][1..] == str[i + 1..];
      i := i + 1;
    }
  }

  /** One turn of the copying loop, for the first character of the rest. */
  method CopyNext(rest: seq<Char>, first: bool, s: nat, buffer: array<byte>, ghost done: seq<Char>)
      returns (first': bool, s': nat, ghost done': seq<Char>)
    requires Valid(rest) && rest != []
    requires s + (if first then 1 else 0) + |Flat(rest)| < buffer.Length && buffer[..s] == Flat(done)
    modifies buffer
    ensures done' + Emitted(rest[1..], first') == done + Emitted(rest, first)
    ensures s' + (if first' then 1 else 0) + |Flat(rest[1..])| < buffer.Length
    ensures s' <= buffer.Length && buffer[..s'] == Flat(done')
  {
    assert IsChar(SPACE);
    EmittedStep(done, rest, first);
    assert IsChar(rest[0]);
    assert Flat(rest) == rest[0] + Flat(rest[1..]);
    hide IsSpace, IsChar, Emitted, Flat;
    first', s', done' := first, s, done;
    if IsSpace(rest[0]) {
      first' := true;
    } else {
      if first {
        s' := Append(buffer, s, SPACE, done);
        done' := done + [SPACE];
        first' := false;
      }
      s' := Append(buffer, s', rest[0], done');
      done' := done' + [rest[0]];
    }
  }

  method CopyWords(str: seq<Char>, start: nat, buffer: array<byte>) returns (s: nat)
    requires Valid(str) && start <= |str| && buffer.Length == |Flat(str[start..])| + 1
    modifies buffer
    ensures s < buffer.Length && buffer[s] == 0 && buffer[..s] == Flat(Emitted(str[start..], false))
  {
    ghost var want := Emitted(str[start..], false);
    ghost var done: seq<Char> := [];
    assert Flat(done) == [] && done + want == want;
    hide IsSpace, IsChar, Emitted, Flat;
    var i := start;
    var first := false;
    s := 0;
    while i < |str|
      invariant start <= i <= |str|
      invariant done + Emitted(str[i..], first) == want
      invariant s + (if first then 1 else 0) + |Flat(str[i..])| < buffer.Length
      invariant buffer[..s] == Flat(done)
    {
      assert str[i..][0] == str[i] && str[i..][1..] == str[i + 1..];
      first, s, done := CopyNext(str[i..], first, s, buffer, done);
      i := i + 1;
    }
    buffer[s] := 0;
    EmittedEnd(str[i..], first);
    assert done + [] == done;
  }
}
