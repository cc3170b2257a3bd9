/**
 Greedy line breaking (text_split.rs): words are packed into chunks of at most `len`
 characters; a word that is longer is cut into pieces of its own. Text is ASCII.
 */
module TextSplit {
  import Strings

  // ---------- words ----------

  /** `text.split(" ")`: always at least one word, possibly empty ones. */
  function Words(text: string): (ws: seq<string>)
    ensures |ws| > 0
  {
    Strings.Split(text, ' ')
  }

  /** Words joined by single spaces. */
  function Join(ws: seq<string>): string {
    Strings.Join(ws, ' ')
  }

  predicate Spaceless(ws: seq<string>) {
    forall i :: 0 <= i < |ws| ==> ' ' !in ws[i]
  }

  lemma WordsSpaceless(text: string)
    ensures Spaceless(Words(text)) && Join(Words(text)) == text
  {
    Strings.SplitClean(text, ' ');
    Strings.JoinSplit(text, ' ');
  }

  /** Only the words of a text join to it. */
  lemma WordsUnique(ws: seq<string>)
    requires |ws| > 0 && Spaceless(ws)
    ensures Words(Join(ws)) == ws
  {
    Strings.SplitJoin(ws, ' ');
  }

  lemma JoinConcat(a: seq<string>, b: seq<string>)
    requires |a| > 0 && |b| > 0
    ensures Join(a + b) == Join(a) + " " + Join(b)
  {
    Strings.JoinConcat(a, b, ' ');
  }

  lemma JoinOne(ws: seq<string>, i: nat)
    requires i < |ws|
    ensures Join(ws[i..i + 1]) == ws[i]
  {
    assert ws[i..i + 1] == [ws[i]];
  }

  // ---------- the greedy algorithm ----------

  /** With len 0 a non-empty word can never be cut up. */
  predicate Cuttable(ws: seq<string>, len: nat) {
    len > 0 || forall k :: 0 <= k < |ws| ==> ws[k] == ""
  }

  /** The end of the chunk that starts with word i: as many more words as fit. */
  function Pack(ws: seq<string>, len: nat, i: nat, end: nat): (e: nat)
    requires i < end <= |ws|
    ensures end <= e <= |ws|
    decreases |ws| - end
  {
    if end < |ws| && |Join(ws[i..end + 1])| <= len then Pack(ws, len, i, end + 1) else end
  }

  /** A long word in pieces. */
  function Pieces(w: string, len: nat): seq<string>
    requires len > 0
  {
    if |w| == 0 then []
    else if |w| > len then [w[..len]] + Pieces(w[len..], len)
    else [w]
  }

  /** The chunks of the words from i on. */
  function Greedy(ws: seq<string>, len: nat, i: nat): seq<string>
    requires i <= |ws| && Cuttable(ws, len)
    decreases |ws| - i
  {
    if i == |ws| then []
    else if |ws[i]| > len then Pieces(ws[i], len) + Greedy(ws, len, i + 1)
    else
      var e := Pack(ws, len, i, i + 1);
      [Join(ws[i..e])] + Greedy(ws, len, e)
  }

  /** The greedy chunk fits, and no longer one from the same word does. */
  lemma {:induction false} PackMaximal(ws: seq<string>, len: nat, i: nat, end: nat)
    requires i < end <= |ws| && |Join(ws[i..end])| <= len
    ensures var e := Pack(ws, len, i, end);
            && |Join(ws[i..e])| <= len
            && forall k :: e < k <= |ws| ==> |Join(ws[i..k])| > len
    decreases |ws| - end
  {
    if end < |ws| {
      if |Join(ws[i..end + 1])| <= len {
        PackMaximal(ws, len, i, end + 1);
      } else {
        forall k | end < k <= |ws|
          ensures |Join(ws[i..k])| > len
        {
          JoinGrows(ws, i, end + 1, k);
        }
      }
    }
  }

  lemma JoinSlices(ws: seq<string>, i: nat, j: nat, k: nat)
    requires i < j < k <= |ws|
    ensures Join(ws[i..k]) == Join(ws[i..j]) + " " + Join(ws[j..k])
  {
    hide Join;
    JoinConcat(ws[i..j], ws[j..k]);
    assert ws[i..k] == ws[i..j] + ws[j..k];
  }

  lemma JoinGrows(ws: seq<string>, i: nat, a: nat, b: nat)
    requires i < a <= b <= |ws|
    ensures |Join(ws[i..a])| <= |Join(ws[i..b])|
  {
    hide Join;
    if a < b {
      JoinSlices(ws, i, a, b);
    }
  }

  lemma JoinShrinks(ws: seq<string>, a: nat, i: nat, b: nat)
    requires a <= i < b <= |ws|
    ensures |Join(ws[i..b])| <= |Join(ws[a..b])|
  {
    hide Join;
    if a < i {
      JoinSlices(ws, a, i, b);
    }
  }

  // ---------- every chunk fits ----------

  lemma {:induction false} PiecesFit(w: string, len: nat)
    requires len > 0
    ensures forall k :: 0 <= k < |Pieces(w, len)| ==> |Pieces(w, len)[k]| <= len
  {
    if |w| > len {
      PiecesFit(w[len..], len);
    }
  }

  lemma {:induction false} ChunksFit(ws: seq<string>, len: nat, i: nat)
    requires i <= |ws| && len > 0
    ensures forall k :: 0 <= k < |Greedy(ws, len, i)| ==> |Greedy(ws, len, i)[k]| <= len
    decreases |ws| - i
  {
    if i < |ws| {
      if |ws[i]| > len {
        PiecesFit(ws[i], len);
        ChunksFit(ws, len, i + 1);
      } else {
        assert ws[i..i + 1] == [ws[i]];
        PackMaximal(ws, len, i, i + 1);
        ChunksFit(ws, len, Pack(ws, len, i, i + 1));
      }
    }
  }

  // ---------- nothing is lost ----------

  /** The characters of a text other than spaces. */
  function Ink(s: string): string {
    if s == "" then "" else (if s[0] == ' ' then "" else [s[0]]) + Ink(s[1..])
  }

  function InkOf(chunks: seq<string>): string {
    if chunks == [] then "" else Ink(chunks[0]) + InkOf(chunks[1..])
  }

  lemma {:induction false} InkConcat(a: string, b: string)
    ensures Ink(a + b) == Ink(a) + Ink(b)
  {
    if a == "" {
      assert a + b == b;
    } else {
      assert (a + b)[1..] == a[1..] + b;
      InkConcat(a[1..], b);
    }
  }

  lemma {:induction false} InkOfConcat(a: seq<string>, b: seq<string>)
    ensures InkOf(a + b) == InkOf(a) + InkOf(b)
  {
    if a == [] {
      assert a + b == b;
    } else {
      assert (a + b)[1..] == a[1..] + b;
      InkOfConcat(a[1..], b);
    }
  }

  lemma {:induction false} InkOfJoin(ws: seq<string>)
    ensures Ink(Join(ws)) == InkOf(ws)
  {
    if |ws| == 1 {
      assert InkOf(ws[1..]) == "";
      assert Ink(ws[0]) + "" == Ink(ws[0]);
    } else if |ws| > 1 {
      InkOfJoin(ws[1..]);
      InkSpaced(ws[0], Join(ws[1..]));
    }
  }

  lemma InkSpaced(a: string, b: string)
    ensures Ink(a + " " + b) == Ink(a) + Ink(b)
  {
    InkConcat(a + " ", b);
    InkConcat(a, " ");
    assert Ink(" ") == "" + Ink(" "[1..]) == "";
    assert Ink(a) + "" == Ink(a);
  }

  lemma {:induction false} InkOfPieces(w: string, len: nat)
    requires len > 0
    ensures InkOf(Pieces(w, len)) == Ink(w)
  {
    if |w| > len {
      InkOfPieces(w[len..], len);
      InkConcat(w[..len], w[len..]);
      assert w == w[..len] + w[len..];
    } else if w != "" {
      assert InkOf([w][1..]) == "";
    }
  }

  lemma {:induction false} GreedyInk(ws: seq<string>, len: nat, i: nat)
    requires i <= |ws| && len > 0
    ensures InkOf(Greedy(ws, len, i)) == InkOf(ws[i..])
    decreases |ws| - i
  {
    if i < |ws| {
      if |ws[i]| > len {
        GreedyInk(ws, len, i + 1);
        InkOfPieces(ws[i], len);
        InkOfConcat(Pieces(ws[i], len), Greedy(ws, len, i + 1));
        assert ws[i..][1..] == ws[i + 1..];
      } else {
        var e := Pack(ws, len, i, i + 1);
        GreedyInk(ws, len, e);
        InkOfJoin(ws[i..e]);
        InkOfConcat(ws[i..e], ws[e..]);
        assert ws[i..] == ws[i..e] + ws[e..];
        assert ([Join(ws[i..e])] + Greedy(ws, len, e))[1..] == Greedy(ws, len, e);
      }
    }
  }

  /** No character other than a space is lost, added or moved, whatever the words are. */
  lemma Lossless(text: string, len: nat)
    requires len > 0
    ensures InkOf(Greedy(Words(text), len, 0)) == Ink(text)
  {
    GreedyInk(Words(text), len, 0);
    assert Words(text)[0..] == Words(text);
    WordsSpaceless(text);
    InkOfJoin(Words(text));
  }

  // ---------- joining and optimality ----------

  predicate NoLongWord(ws: seq<string>, len: nat) {
    forall k :: 0 <= k < |ws| ==> |ws[k]| <= len
  }

  lemma {:induction false} GreedyJoins(ws: seq<string>, len: nat, i: nat)
    requires i <= |ws| && len > 0 && NoLongWord(ws, len)
    ensures Join(Greedy(ws, len, i)) == Join(ws[i..])
    ensures Greedy(ws, len, i) == [] <==> i == |ws|
    decreases |ws| - i
  {
    if i < |ws| {
      var e := Pack(ws, len, i, i + 1);
      var rest := Greedy(ws, len, e);
      GreedyJoins(ws, len, e);
      assert ([Join(ws[i..e])] + rest)[1..] == rest;
      assert ws[i..] == ws[i..e] + ws[e..];
      if e < |ws| {
        JoinConcat(ws[i..e], ws[e..]);
      } else {
        assert ws[e..] == [] && ws[i..e] == ws[i..];
      }
    }
  }

  /** If no word is too long, the chunks joined by single spaces are the text. */
  lemma Rejoins(text: string, len: nat)
    requires len > 0 && NoLongWord(Words(text), len)
    ensures Join(Greedy(Words(text), len, 0)) == text
  {
    GreedyJoins(Words(text), len, 0);
    assert Words(text)[0..] == Words(text);
    WordsSpaceless(text);
  }

  /** The words of all chunks, one after the other. */
  function AllWords(chunks: seq<string>): seq<string> {
    if chunks == [] then [] else Words(chunks[0]) + AllWords(chunks[1..])
  }

  lemma {:induction false} AllWordsJoin(chunks: seq<string>)
    requires chunks != []
    ensures AllWords(chunks) != [] && Spaceless(AllWords(chunks)) && Join(AllWords(chunks)) == Join(chunks)
  {
    WordsSpaceless(chunks[0]);
    if |chunks| == 1 {
      assert AllWords(chunks) == Words(chunks[0]);
    } else {
      AllWordsJoin(chunks[1..]);
      JoinConcat(Words(chunks[0]), AllWords(chunks[1..]));
    }
  }

  /**
   Greedy stays ahead: from any later word on it needs no more chunks than any way of
   cutting the words from an earlier word on into fitting chunks.
   */
  lemma {:induction false} StaysAhead(ws: seq<string>, len: nat, i: nat, j: nat, other: seq<string>)
    requires i <= j <= |ws| && len > 0 && NoLongWord(ws, len)
    requires AllWords(other) == ws[i..]
    requires forall k :: 0 <= k < |other| ==> |other[k]| <= len
    ensures |Greedy(ws, len, j)| <= |other|
    decreases |other|
  {
    hide Join, Words, Pack, Spaceless;
    if j < |ws| {
      assert other != [];
      var n := i + |Words(other[0])|;
      var rest := other[1..];
      assert AllWords(other) == Words(other[0]) + AllWords(rest);
      assert ws[i..n] == Words(other[0]) && ws[n..] == AllWords(rest);
      if n <= j {
        StaysAhead(ws, len, n, j, rest);
      } else {
        var e := Pack(ws, len, j, j + 1);
        JoinOne(ws, j);
        PackMaximal(ws, len, j, j + 1);
        WordsSpaceless(other[0]);
        JoinShrinks(ws, i, j, n);
        assert n <= e;
        StaysAhead(ws, len, n, e, rest);
      }
    }
  }

  /** No other way of breaking the text into fitting lines uses fewer lines. */
  lemma Optimal(text: string, len: nat, other: seq<string>)
    requires len > 0 && NoLongWord(Words(text), len)
    requires other != [] && Join(other) == text
    requires forall k :: 0 <= k < |other| ==> |other[k]| <= len
    ensures |Greedy(Words(text), len, 0)| <= |other|
  {
    AllWordsJoin(other);
    WordsUnique(AllWords(other));
    assert Words(text)[0..] == Words(text);
    StaysAhead(Words(text), len, 0, 0, other);
  }

  // ---------- texts with long words ----------

  function Concat(pieces: seq<string>): string {
    if pieces == [] then "" else pieces[0] + Concat(pieces[1..])
  }

  /** The pieces of a word make up the word; all but the last are of full length, so that there are as few as can be. */
  lemma {:induction false} PiecesExactly(w: string, len: nat)
    requires len > 0
    ensures Concat(Pieces(w, len)) == w
    ensures forall k :: 0 <= k < |Pieces(w, len)| ==> 0 < |Pieces(w, len)[k]| <= len
    ensures forall k :: 0 <= k < |Pieces(w, len)| - 1 ==> |Pieces(w, len)[k]| == len
  {
    if |w| > len {
      var rest := w[len..];
      PiecesExactly(rest, len);
      assert w == w[..len] + rest;
      assert ([w[..len]] + Pieces(rest, len))[1..] == Pieces(rest, len);
    } else if w != "" {
      assert Concat([w][1..]) == "" && w + "" == w;
    }
  }

  lemma {:induction false} PiecesFewest(w: string, len: nat, n: nat)
    requires len > 0 && |w| <= n * len
    ensures |Pieces(w, len)| <= n
  {
    if |w| > len {
      assert |w| - len <= (n - 1) * len;
      assert n > 0;
      PiecesFewest(w[len..], len, n - 1);
    }
  }

  lemma {:induction false} ConcatLength(pieces: seq<string>, len: nat)
    requires forall k :: 0 <= k < |pieces| ==> |pieces[k]| <= len
    ensures |Concat(pieces)| <= |pieces| * len
  {
    if pieces != [] {
      ConcatLength(pieces[1..], len);
      assert |pieces| * len == len + (|pieces| - 1) * len;
    }
  }

  /** Part of a broken text: some words on one line, or a word cut up over lines of its own. */
  datatype Part = Line(words: seq<string>) | Cut(word: string, pieces: seq<string>)

  /** Only a word that is too long is cut, and everything fits. */
  predicate Fits(p: Part, len: nat) {
    match p
    case Line(words) => words != [] && |Join(words)| <= len
    case Cut(word, pieces) => |word| > len && Concat(pieces) == word && forall k :: 0 <= k < |pieces| ==> |pieces[k]| <= len
  }

  function PartWords(p: Part): seq<string> {
    if p.Line? then p.words else [p.word]
  }

  function PartLines(p: Part): seq<string> {
    if p.Line? then [Join(p.words)] else p.pieces
  }

  function WordsOf(parts: seq<Part>): seq<string> {
    if parts == [] then [] else PartWords(parts[0]) + WordsOf(parts[1..])
  }

  function LinesOf(parts: seq<Part>): seq<string> {
    if parts == [] then [] else PartLines(parts[0]) + LinesOf(parts[1..])
  }

  /** Where two lines follow one another, the first word of the second would not have fitted on the first. */
  predicate Filled(parts: seq<Part>, len: nat) {
    forall k :: 0 <= k < |parts| - 1 && parts[k].Line? && parts[k + 1].Line? && parts[k + 1].words != [] ==>
      |Join(parts[k].words + [parts[k + 1].words[0]])| > len
  }

  /** Every piece of a cut word but the last is of full length. */
  predicate CutFull(parts: seq<Part>, len: nat) {
    forall k :: 0 <= k < |parts| && parts[k].Cut? ==>
      forall q :: 0 <= q < |parts[k].pieces| - 1 ==> |parts[k].pieces[q]| == len
  }

  predicate AllFit(parts: seq<Part>, len: nat) {
    forall k :: 0 <= k < |parts| ==> Fits(parts[k], len)
  }

  /** The greedy chunks of any words: long words cut up in full pieces, the others on lines as full as can be. */
  lemma {:induction false} GreedyShape(ws: seq<string>, len: nat, i: nat) returns (parts: seq<Part>)
    requires i <= |ws| && len > 0
    ensures WordsOf(parts) == ws[i..] && LinesOf(parts) == Greedy(ws, len, i)
    ensures AllFit(parts, len) && CutFull(parts, len) && Filled(parts, len)
    decreases |ws| - i
  {
    hide Join, Pack, Pieces, Greedy, Fits, Filled, CutFull, AllFit, PartWords, PartLines;
    if i == |ws| {
      GreedyEnd(ws, len);
      NoParts(len);
      parts := [];
      return;
    }
    var first, next := GreedyFirst(ws, len, i);
    var rest := GreedyShape(ws, len, next);
    parts := [first] + rest;
    assert parts[1..] == rest && ws[i..] == ws[i..next] + ws[next..];
    MorePartsFit(first, rest, len);
    MorePartsFilled(ws, len, i, next, first, rest);
  }

  lemma NoParts(len: nat)
    ensures AllFit([], len) && CutFull([], len) && Filled([], len)
  {
  }

  lemma MorePartsFit(first: Part, rest: seq<Part>, len: nat)
    requires len > 0 && Fits(first, len) && AllFit(rest, len) && CutFull(rest, len)
    requires first.Cut? ==> first.pieces == Pieces(first.word, len)
    ensures AllFit([first] + rest, len) && CutFull([first] + rest, len)
  {
    hide Fits, Pieces;
    if first.Cut? {
      PiecesExactly(first.word, len);
    }
  }

  lemma MorePartsFilled(ws: seq<string>, len: nat, i: nat, next: nat, first: Part, rest: seq<Part>)
    requires i < next <= |ws| && PartWords(first) == ws[i..next] && WordsOf(rest) == ws[next..] && Filled(rest, len)
    requires first.Line? && next < |ws| ==> |Join(ws[i..next + 1])| > len
    ensures Filled([first] + rest, len)
  {
    hide Join;
    var parts := [first] + rest;
    if rest != [] && first.Line? && rest[0].Line? && rest[0].words != [] {
      assert WordsOf(rest)[0] == rest[0].words[0];
      assert ws[next..][0] == ws[next];
      assert ws[i..next] + [ws[next]] == ws[i..next + 1];
    }
    forall k | 0 <= k < |parts| - 1 && parts[k].Line? && parts[k + 1].Line? && parts[k + 1].words != []
      ensures |Join(parts[k].words + [parts[k + 1].words[0]])| > len
    {
      if k > 0 {
        assert parts[k] == rest[k - 1] && parts[k + 1] == rest[k];
      }
    }
  }

  lemma GreedyFirst(ws: seq<string>, len: nat, i: nat) returns (first: Part, next: nat)
    requires i < |ws| && len > 0
    ensures i < next <= |ws| && PartWords(first) == ws[i..next]
    ensures Greedy(ws, len, i) == PartLines(first) + Greedy(ws, len, next)
    ensures Fits(first, len)
    ensures first.Cut? <==> |ws[i]| > len
    ensures first.Cut? ==> first.pieces == Pieces(first.word, len)
    ensures first.Line? && next < |ws| ==> |Join(ws[i..next + 1])| > len
  {
    hide Join;
    if |ws[i]| > len {
      PiecesExactly(ws[i], len);
      first, next := Cut(ws[i], Pieces(ws[i], len)), i + 1;
    } else {
      JoinOne(ws, i);
      PackMaximal(ws, len, i, i + 1);
      next := Pack(ws, len, i, i + 1);
      first := Line(ws[i..next]);
    }
  }

  /** The greedy chunks from any later word on are no more than the lines of any way of breaking from an earlier one on. */
  lemma {:induction false} StaysAheadOfParts(ws: seq<string>, len: nat, i: nat, j: nat, parts: seq<Part>)
    requires i <= j <= |ws| && len > 0
    requires WordsOf(parts) == ws[i..] && AllFit(parts, len)
    ensures |Greedy(ws, len, j)| <= |LinesOf(parts)|
    decreases |parts|
  {
    hide Join, Pack, Pieces, Greedy;
    if j == |ws| {
      GreedyEnd(ws, len);
    } else {
      assert parts != [];
      var p, rest := parts[0], parts[1..];
      var n := i + |PartWords(p)|;
      assert ws[i..n] == PartWords(p) && ws[n..] == WordsOf(rest);
      assert Fits(p, len);
      if n <= j {
        StaysAheadOfParts(ws, len, n, j, rest);
      } else {
        var first, next := GreedyFirst(ws, len, j);
        if p.Cut? {
          assert ws[i..n][0] == ws[i] && j == i;
          CutFewest(ws, len, i, p, first, next);
        } else {
          ShortWithin(ws, len, i, j, n, first, next);
        }
        StaysAheadOfParts(ws, len, n, next, rest);
      }
    }
  }

  lemma CutFewest(ws: seq<string>, len: nat, i: nat, p: Part, first: Part, next: nat)
    requires i < next <= |ws| && len > 0 && p.Cut? && Fits(p, len) && p.word == ws[i]
    requires PartWords(first) == ws[i..next] && first.Cut? && first.pieces == Pieces(first.word, len)
    ensures next == i + 1 && |PartLines(first)| <= |PartLines(p)|
  {
    hide Pieces;
    assert ws[i..next][0] == first.word;
    ConcatLength(p.pieces, len);
    PiecesFewest(p.word, len, |p.pieces|);
  }

  lemma ShortWithin(ws: seq<string>, len: nat, i: nat, j: nat, n: nat, first: Part, next: nat)
    requires i <= j < n <= |ws| && |Join(ws[i..n])| <= len
    requires j < next <= |ws| && PartWords(first) == ws[j..next] && (first.Cut? <==> |ws[j]| > len)
    requires first.Line? && next < |ws| ==> |Join(ws[j..next + 1])| > len
    ensures n <= next && |PartLines(first)| == 1
  {
    hide Join;
    JoinShrinks(ws, i, j, n);
    JoinOne(ws, j);
    JoinGrows(ws, j, j + 1, n);
    if next < n {
      JoinGrows(ws, j, next + 1, n);
    }
  }

  /**
   For every text: of all ways of breaking it in which only words that are too long are cut, and
   these stand on lines of their own, none uses fewer lines.
   */
  lemma OptimalAlways(text: string, len: nat, parts: seq<Part>)
    requires len > 0 && WordsOf(parts) == Words(text) && AllFit(parts, len)
    ensures |Greedy(Words(text), len, 0)| <= |LinesOf(parts)|
  {
    assert Words(text)[0..] == Words(text);
    StaysAheadOfParts(Words(text), len, 0, 0, parts);
  }

  // ---------- the loops ----------

  lemma JoinPush(ws: seq<string>, i: nat, j: nat)
    requires i < j < |ws|
    ensures Join(ws[i..j + 1]) == Join(ws[i..j]) + " " + ws[j]
  {
    JoinConcat(ws[i..j], ws[j..j + 1]);
    assert ws[i..j + 1] == ws[i..j] + ws[j..j + 1] && ws[j..j + 1] == [ws[j]];
  }

  /** split_text. With len 0 the source's loop over a non-empty word does not end. */
  method SplitText(len: nat, text: string) returns (subText: seq<string>)
    requires Cuttable(Words(text), len)
    ensures subText == Greedy(Words(text), len, 0)
  {
    hide Greedy, Words, Cuttable;
    var ws := Words(text);
    subText := [];
    var lastAdd := 0;
    for i := 0 to |ws|
      invariant lastAdd <= |ws|
      invariant subText + Greedy(ws, len, if i < lastAdd then lastAdd else i) == Greedy(ws, len, 0)
    {
      if i < lastAdd {
        continue;
      }
      ghost var before := subText;
      var chunks;
      chunks, lastAdd := ChunksAt(ws, len, i);
      subText := subText + chunks;
      ghost var rest := Greedy(ws, len, if i + 1 < lastAdd then lastAdd else i + 1);
      assert before + (chunks + rest) == subText + rest;
    }
    GreedyEnd(ws, len);
    assert subText + [] == subText;
  }

  lemma GreedyEnd(ws: seq<string>, len: nat)
    requires Cuttable(ws, len)
    ensures Greedy(ws, len, |ws|) == []
  {
  }

  /** The body of the loop for word i; words before the returned index are skipped. */
  method ChunksAt(ws: seq<string>, len: nat, i: nat) returns (chunks: seq<string>, lastAdd: nat)
    requires i < |ws| && Cuttable(ws, len)
    ensures i <= lastAdd <= |ws|
    ensures Greedy(ws, len, i) == chunks + Greedy(ws, len, if i + 1 < lastAdd then lastAdd else i + 1)
  {
    JoinOne(ws, i);
    if |ws[i]| <= len {
      if i < |ws| - 1 {
        var end := FindEnd(ws, len, i);
        var subMsg := JoinRange(ws, i, end);
        chunks, lastAdd := [subMsg], end;
      } else {
        chunks, lastAdd := [ws[i]], i;
      }
    } else {
      chunks := CutWord(ws[i], len);
      lastAdd := i;
    }
  }

  /** How many words fit, counted by lengths alone. */
  method FindEnd(ws: seq<string>, len: nat, i: nat) returns (end: nat)
    requires i < |ws| - 1 && |ws[i]| <= len
    ensures end == Pack(ws, len, i, i + 1)
  {
    var totalSize := |ws[i]| + 1;
    end := i + 1;
    assert ws[i..i + 1] == [ws[i]];
    for j := i + 1 to |ws|
      invariant totalSize == |Join(ws[i..j])| + 1
      invariant Pack(ws, len, i, i + 1) == Pack(ws, len, i, j)
      invariant j < |ws|
    {
      JoinPush(ws, i, j);
      if totalSize + |ws[j]| > len {
        end := j;
        break;
      }
      if j >= |ws| - 1 {
        end := |ws|;
        break;
      }
      totalSize := totalSize + |ws[j]| + 1;
    }
  }

  method JoinRange(ws: seq<string>, i: nat, end: nat) returns (subMsg: string)
    requires i < end <= |ws|
    ensures subMsg == Join(ws[i..end])
  {
    subMsg := "";
    for j := i to end
      invariant subMsg == if j == i then "" else Join(ws[i..j]) + (if j < end then " " else "")
    {
      subMsg := subMsg + ws[j];
      if j > i {
        JoinPush(ws, i, j);
      } else {
        assert ws[i..i + 1] == [ws[i]];
      }
      if j < end - 1 {
        subMsg := subMsg + " ";
      }
    }
  }

  method CutWord(word: string, len: nat) returns (pieces: seq<string>)
    requires len > 0
    ensures pieces == Pieces(word, len)
  {
    pieces := [];
    var longText := word;
    while |longText| > 0
      invariant pieces + Pieces(longText, len) == Pieces(word, len)
      decreases |longText|
    {
      if |longText| > len {
        pieces := pieces + [longText[..len]];
        longText := longText[len..];
      } else {
        pieces := pieces + [longText];
        break;
      }
    }
  }
}
