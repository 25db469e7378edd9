/**
  The overview text shown for the selected movie. The catalog stores an
  overview either as text or as a list of words; a list is joined with single
  spaces, and a missing or empty overview is replaced by a placeholder.
*/
module Overview {

  /** The value `row.get("overview")` yields. */
  datatype Field = Missing | Text(text: string) | Words(words: seq<string>)

  const Placeholder: string := "Overview not available."

  /** Sum of the lengths of the words. */
  function TotalLength(ws: seq<string>): nat {
    if |ws| == 0 then 0 else |ws[0]| + TotalLength(ws[1..])
  }

  /** `" ".join(ws)`: the words in order, one space between neighbours. */
  function Join(ws: seq<string>): string {
    if |ws| == 0 then ""
    else if |ws| == 1 then ws[0]
    else ws[0] + " " + Join(ws[1..])
  }

  /** A join holds every character of the words plus one space between each pair of neighbours. */
  lemma {:induction false} JoinLength(ws: seq<string>)
    requires |ws| > 0
    ensures |Join(ws)| == TotalLength(ws) + |ws| - 1
    decreases |ws|
  {
    if |ws| > 1 {
      JoinLength(ws[1..]);
    }
  }

  /** `s.split(" ")`: the pieces between single spaces, empty pieces included. */
  function Split(s: string): (r: seq<string>)
    ensures |r| > 0
  {
    if |s| == 0 then [""]
    else
      var pieces := Split(s[1..]);
      if s[0] == ' ' then [""] + pieces
      else [[s[0]] + pieces[0]] + pieces[1..]
  }

  /** Joining a word in front of a non-empty list puts one space after it. */
  lemma JoinCons(w: string, ws: seq<string>)
    requires |ws| > 0
    ensures Join([w] + ws) == w + " " + Join(ws)
  {
    assert ([w] + ws)[1..] == ws;
  }

  /** Prefixing the first word with a character prefixes the join with it. */
  lemma JoinPrefixFirst(c: char, w: string, t: seq<string>)
    ensures Join([[c] + w] + t) == [c] + Join([w] + t)
  {
    if |t| > 0 {
      JoinCons([c] + w, t);
      JoinCons(w, t);
      assert ([c] + w) + " " + Join(t) == [c] + (w + " " + Join(t));
    } else {
      assert [[c] + w] + t == [[c] + w] && [w] + t == [w];
    }
  }

  /** Joining the pieces of a split restores the text. */
  lemma {:induction false} JoinSplit(s: string)
    ensures Join(Split(s)) == s
    decreases |s|
  {
    if |s| > 0 {
      var pieces := Split(s[1..]);
      JoinSplit(s[1..]);
      if s[0] == ' ' {
        JoinCons("", pieces);
      } else {
        assert pieces == [pieces[0]] + pieces[1..];
        JoinPrefixFirst(s[0], pieces[0], pieces[1..]);
      }
      assert s == [s[0]] + s[1..];
    }
  }

  /** A space-free word followed by a space splits off as one piece. */
  lemma {:induction false} SplitWordSpace(w: string, x: string)
    requires ' ' !in w
    ensures Split(w + " " + x) == [w] + Split(x)
    decreases |w|
  {
    if |w| == 0 {
      assert w + " " + x == [' '] + x;
    } else {
      assert w[0] in w;
      SplitWordSpace(w[1..], x);
      assert (w + " " + x)[1..] == w[1..] + " " + x;
      assert w == [w[0]] + w[1..];
    }
  }

  /** A space-free word splits into itself. */
  lemma {:induction false} SplitWord(w: string)
    requires ' ' !in w
    ensures Split(w) == [w]
    decreases |w|
  {
    if |w| > 0 {
      assert w[0] in w;
      SplitWord(w[1..]);
      assert w == [w[0]] + w[1..];
    }
  }

  /** Splitting a join of space-free words recovers the words. */
  lemma {:induction false} SplitJoin(ws: seq<string>)
    requires |ws| > 0
    requires forall k :: 0 <= k < |ws| ==> ' ' !in ws[k]
    ensures Split(Join(ws)) == ws
    decreases |ws|
  {
    var w := ws[0];
    if |ws| == 1 {
      SplitWord(w);
    } else {
      var tail := ws[1..];
      assert ws == [w] + tail;
      JoinCons(w, tail);
      SplitWordSpace(w, Join(tail));
      SplitJoin(tail);
    }
  }

  /** A join is empty exactly when there are no words or a single empty word. */
  lemma JoinEmpty(ws: seq<string>)
    ensures Join(ws) == "" <==> |ws| == 0 || (|ws| == 1 && ws[0] == "")
  {
  }

  /**
    The text displayed for an overview: lists are joined with spaces, and a
    missing or empty result becomes the placeholder.
  */
  function Display(f: Field): (r: string)
    ensures r != ""
    ensures f.Missing? ==> r == Placeholder
    ensures f.Text? ==> r == (if f.text == "" then Placeholder else f.text)
    ensures f.Words? ==>
      r == (if |f.words| == 0 || (|f.words| == 1 && f.words[0] == "") then Placeholder else Join(f.words))
  {
    var normalised := match f
      case Missing => ""
      case Text(t) => t
      case Words(ws) => Join(ws);
    JoinEmpty(if f.Words? then f.words else []);
    if normalised != "" then normalised else Placeholder
  }
}
