/** The stream tokenizer under the CSV reader: `std::getline` over an in-memory
    stream, and the theory of the pieces it yields.

    `getline` treats its separator as a terminator, not as something that stands
    between pieces: "a" and "a," both hold the one piece "a", "," holds one empty
    piece and "" holds none. */
module Tokenizer {

  /** The position of the first `sep` in `x`, or |x| when there is none. */
  function Find(x: string, sep: char): (i: nat)
    ensures i <= |x| && sep !in x[..i] && (i < |x| ==> x[i] == sep)
  {
    if x == "" || x[0] == sep then 0
    else
      var rest := Find(x[1..], sep);
      assert x[..1 + rest] == [x[0]] + x[1..][..rest];
      1 + rest
  }

  /** What repeated `getline(stream, piece, sep)` reads from `x`. */
  function Split(x: string, sep: char): seq<string>
    decreases |x|
  {
    if x == "" then []
    else
      var i := Find(x, sep);
      if i == |x| then [x] else [x[..i]] + Split(x[i + 1..], sep)
  }

  /** Prints every piece followed by `sep`. */
  function Terminated(pieces: seq<string>, sep: char): string {
    if pieces == [] then "" else pieces[0] + [sep] + Terminated(pieces[1..], sep)
  }

  /** Prints the pieces with `sep` between neighbours. */
  function Joined(pieces: seq<string>, sep: char): string {
    if pieces == [] then ""
    else if |pieces| == 1 then pieces[0]
    else pieces[0] + [sep] + Joined(pieces[1..], sep)
  }

  /** Terminates the last piece of `x` when it is not terminated yet. */
  function Norm(x: string, sep: char): string {
    if x == "" || x[|x| - 1] == sep then x else x + [sep]
  }

  ghost predicate Clean(pieces: seq<string>, sep: char) {
    forall i :: 0 <= i < |pieces| ==> sep !in pieces[i]
  }

  function Count(x: string, c: char): nat {
    if x == "" then 0 else (if x[0] == c then 1 else 0) + Count(x[1..], c)
  }

  // ---------- the stream ----------

  /** What one `getline` does to the unread text `x`: with nothing to read it fails;
      otherwise it takes the characters up to the first `sep`, which it swallows, or
      all of them when there is none. */
  ghost predicate Peels(x: string, sep: char, ok: bool, token: string, rest: string) {
    if x == "" then !ok && rest == ""
    else ok && sep !in token && (x == token + [sep] + rest || (x == token && rest == ""))
  }

  /** An input string stream with its two error bits. */
  class CharStream {
    const text: string
    var pos: nat
    var eof: bool
    var fail: bool

    ghost predicate Valid()
      reads this
    {
      pos <= |text|
    }

    /** What later reads can still deliver: nothing once an error bit is set. */
    ghost function Unread(): string
      reads this
      requires Valid()
    {
      if eof || fail then "" else text[pos..]
    }

    constructor (text: string)
      ensures Valid() && this.text == text && Unread() == text
    {
      this.text := text;
      pos, eof, fail := 0, false, false;
    }

    /** `getline(stream, token, sep)`; `ok` is the stream's truth value afterwards. */
    method GetLine(sep: char) returns (ok: bool, token: string)
      requires Valid()
      modifies this`pos, this`eof, this`fail
      ensures Valid()
      ensures Peels(old(Unread()), sep, ok, token, Unread())
      ensures ok ==> |Unread()| < |old(Unread())|
    {
      hide Peels, Read;
      token := "";
      if eof || fail {
        PeelsNothing(sep);
        fail := true;
        return false, token;
      }
      ghost var start := pos;
      ReadNothing(text, start, sep);
      while pos < |text|
        invariant !eof && !fail && Read(text, start, pos, token, sep)
      {
        var c := text[pos];
        pos := pos + 1;
        if c == sep {
          ReadSeparator(text, start, pos, token, sep);
          return true, token;
        }
        ReadMore(text, start, pos, token, sep);
        token := token + [c];
      }
      ReadToEnd(text, start, pos, token, sep);
      eof := true;
      ok := token != "";
      fail := !ok;
    }
  }

  /** The characters of `text` from `start` to `pos` are `token`, with no separator among them. */
  ghost predicate Read(text: string, start: nat, pos: nat, token: string, sep: char) {
    start <= pos <= |text| && token == text[start..pos] && sep !in token
  }

  lemma {:induction false} PeelsNothing(sep: char)
    ensures Peels("", sep, false, "", "")
  {
  }

  lemma {:induction false} ReadNothing(text: string, start: nat, sep: char)
    requires start <= |text|
    ensures Read(text, start, start, "", sep)
  {
  }

  lemma {:induction false} ReadMore(text: string, start: nat, pos: nat, token: string, sep: char)
    requires 0 < pos <= |text| && Read(text, start, pos - 1, token, sep) && text[pos - 1] != sep
    ensures Read(text, start, pos, token + [text[pos - 1]], sep)
  {
    assert text[start..pos] == text[start..pos - 1] + [text[pos - 1]];
  }

  lemma {:induction false} ReadSeparator(text: string, start: nat, pos: nat, token: string, sep: char)
    requires 0 < pos <= |text| && Read(text, start, pos - 1, token, sep) && text[pos - 1] == sep
    ensures start < pos && Peels(text[start..], sep, true, token, text[pos..])
  {
    assert text[start..] == text[start..pos - 1] + [text[pos - 1]] + text[pos..];
  }

  lemma {:induction false} ReadToEnd(text: string, start: nat, pos: nat, token: string, sep: char)
    requires Read(text, start, pos, token, sep) && pos >= |text|
    ensures start <= |text| && pos == |text| && (token == "" <==> start == |text|)
    ensures Peels(text[start..], sep, token != "", token, "")
  {
    assert text[start..] == token;
  }

  lemma {:induction false} FindAfterClean(token: string, rest: string, sep: char)
    requires sep !in token
    ensures Find(token + [sep] + rest, sep) == |token|
    decreases |token|
  {
    var x := token + [sep] + rest;
    if token != "" {
      assert x[1..] == token[1..] + [sep] + rest;
      FindAfterClean(token[1..], rest, sep);
    }
  }

  /** One successful `getline` peels one piece off the split. */
  lemma {:induction false} SplitStep(x: string, token: string, rest: string, sep: char)
    requires Peels(x, sep, true, token, rest)
    ensures Split(x, sep) == [token] + Split(rest, sep)
  {
    var i := Find(x, sep);
    if x == token {
      assert i == |x|;
    } else {
      FindAfterClean(token, rest, sep);
      assert x[..i] == token && x[i + 1..] == rest;
    }
  }

  /** The converse reading: any unread text starts with one piece. */
  lemma {:induction false} FirstPiece(x: string, sep: char) returns (token: string, rest: string)
    requires x != ""
    ensures Peels(x, sep, true, token, rest) && |rest| < |x|
    ensures Split(x, sep) == [token] + Split(rest, sep)
  {
    var i := Find(x, sep);
    token, rest := x[..i], if i == |x| then "" else x[i + 1..];
    SplitStep(x, token, rest, sep);
  }

  // ---------- the theory of pieces ----------

  lemma {:induction false} TerminatedCons(token: string, pieces: seq<string>, sep: char)
    ensures Terminated([token] + pieces, sep) == token + [sep] + Terminated(pieces, sep)
  {
  }

  lemma {:induction false} NormAfterPiece(x: string, token: string, rest: string, sep: char)
    requires Peels(x, sep, true, token, rest)
    ensures Norm(x, sep) == token + [sep] + Norm(rest, sep)
  {
  }

  lemma {:induction false} SplitIsClean(x: string, sep: char)
    ensures Clean(Split(x, sep), sep)
    decreases |x|
  {
    if x != "" {
      var _, rest := FirstPiece(x, sep);
      SplitIsClean(rest, sep);
    }
  }

  /** Printing what was read gives the text back, with its last piece terminated. */
  lemma {:induction false} PrintAfterSplit(x: string, sep: char)
    ensures Terminated(Split(x, sep), sep) == Norm(x, sep)
    decreases |x|
  {
    if x != "" {
      var token, rest := FirstPiece(x, sep);
      PrintAfterSplit(rest, sep);
      TerminatedCons(token, Split(rest, sep), sep);
      NormAfterPiece(x, token, rest, sep);
    }
  }

  lemma {:induction false} SplitNothing(sep: char)
    ensures Split(Terminated([], sep), sep) == []
  {
  }

  lemma {:induction false} CleanTail(pieces: seq<string>, sep: char)
    requires pieces != [] && Clean(pieces, sep)
    ensures Clean(pieces[1..], sep)
  {
  }

  lemma {:induction false} TerminatedPeels(pieces: seq<string>, sep: char)
    requires pieces != [] && Clean(pieces, sep)
    ensures Peels(Terminated(pieces, sep), sep, true, pieces[0], Terminated(pieces[1..], sep))
  {
  }

  /** Reading terminated pieces back is exact, for every list of clean pieces. */
  lemma {:induction false} SplitAfterPrint(pieces: seq<string>, sep: char)
    requires Clean(pieces, sep)
    ensures Split(Terminated(pieces, sep), sep) == pieces
    decreases |pieces|
  {
    hide *;
    if pieces == [] {
      SplitNothing(sep);
    } else {
      var first, others := pieces[0], pieces[1..];
      CleanTail(pieces, sep);
      TerminatedPeels(pieces, sep);
      SplitAfterPrint(others, sep);
      SplitStep(Terminated(pieces, sep), first, Terminated(others, sep), sep);
      assert pieces == [first] + others;
    }
  }

  /** The image of the tokenizer: exactly the lists of clean pieces. */
  lemma {:induction false} SplitImage(pieces: seq<string>, sep: char)
    ensures (exists x :: Split(x, sep) == pieces) <==> Clean(pieces, sep)
  {
    if x :| Split(x, sep) == pieces { SplitIsClean(x, sep); }
    if Clean(pieces, sep) { SplitAfterPrint(pieces, sep); }
  }

  /** Two texts read alike exactly when they differ at most in a final terminator. */
  lemma {:induction false} SplitKernel(x: string, y: string, sep: char)
    ensures Split(x, sep) == Split(y, sep) <==> Norm(x, sep) == Norm(y, sep)
  {
    PrintAfterSplit(x, sep);
    PrintAfterSplit(y, sep);
    SplitIsClean(x, sep);
    SplitIsClean(y, sep);
    SplitAfterPrint(Split(x, sep), sep);
    SplitAfterPrint(Split(y, sep), sep);
  }

  lemma {:induction false} Associate<T>(a: seq<T>, b: seq<T>, c: seq<T>)
    ensures a + (b + c) == (a + b) + c
  {
  }

  lemma {:induction false} ConcatPeels(x: string, token: string, rest: string, y: string, sep: char)
    requires Peels(x, sep, true, token, rest) && x[|x| - 1] == sep
    ensures Peels(x + y, sep, true, token, rest + y)
    ensures rest == "" || rest[|rest| - 1] == sep
  {
  }

  /** Cutting the text after a separator cuts the list of pieces. */
  lemma {:induction false} SplitConcat(x: string, y: string, sep: char)
    requires x == "" || x[|x| - 1] == sep
    ensures Split(x + y, sep) == Split(x, sep) + Split(y, sep)
    decreases |x|
  {
    if x == "" {
      assert x + y == y && Split(x, sep) == [];
    } else {
      var token, rest := FirstPiece(x, sep);
      ConcatPeels(x, token, rest, y, sep);
      SplitConcat(rest, y, sep);
      SplitStep(x + y, token, rest + y, sep);
      Associate([token], Split(rest, sep), Split(y, sep));
    }
  }

  /** A separator between two texts composes their pieces. */
  lemma {:induction false} SplitComposition(x: string, y: string, sep: char)
    ensures Split(x + [sep] + y, sep) == Split(x + [sep], sep) + Split(y, sep)
  {
    SplitConcat(x + [sep], y, sep);
  }

  function DropLast(pieces: seq<string>): seq<string>
    requires pieces != []
  {
    pieces[..|pieces| - 1]
  }

  function Last(pieces: seq<string>): string
    requires pieces != []
  {
    pieces[|pieces| - 1]
  }

  /** What a reader sees of a row printed with separators between its pieces. */
  function Trimmed(pieces: seq<string>): seq<string>
    requires pieces != []
  {
    if Last(pieces) == "" then DropLast(pieces) else pieces
  }

  lemma {:induction false} TrimmedCons(pieces: seq<string>)
    requires |pieces| > 1
    ensures Trimmed(pieces) == [pieces[0]] + Trimmed(pieces[1..])
  {
  }

  lemma {:induction false} JoinedCons(pieces: seq<string>, sep: char)
    requires |pieces| > 1
    ensures Joined(pieces, sep) == pieces[0] + [sep] + Joined(pieces[1..], sep)
  {
  }

  /** Reading joined pieces loses an empty last piece and nothing else. */
  lemma {:induction false} SplitAfterJoin(pieces: seq<string>, sep: char)
    requires pieces != [] && Clean(pieces, sep)
    ensures Split(Joined(pieces, sep), sep) == Trimmed(pieces)
    decreases |pieces|
  {
    var first, others := pieces[0], pieces[1..];
    if others == [] {
      if first != "" {
        SplitStep(first, first, "", sep);
      }
    } else {
      SplitAfterJoin(others, sep);
      JoinedCons(pieces, sep);
      SplitStep(first + [sep] + Joined(others, sep), first, Joined(others, sep), sep);
      TrimmedCons(pieces);
    }
  }

  lemma {:induction false} CountConcat(x: string, y: string, c: char)
    ensures Count(x + y, c) == Count(x, c) + Count(y, c)
    decreases |x|
  {
    if x == "" {
      assert x + y == y;
    } else {
      assert (x + y)[1..] == x[1..] + y;
      CountConcat(x[1..], y, c);
    }
  }

  lemma {:induction false} CountOfClean(x: string, c: char)
    requires c !in x
    ensures Count(x, c) == 0
    decreases |x|
  {
    if x != "" { CountOfClean(x[1..], c); }
  }

  lemma {:induction false} CountTerminated(pieces: seq<string>, sep: char)
    requires Clean(pieces, sep)
    ensures Count(Terminated(pieces, sep), sep) == |pieces|
    decreases |pieces|
  {
    if pieces != [] {
      CountTerminated(pieces[1..], sep);
      CountOfClean(pieces[0], sep);
      CountConcat(pieces[0] + [sep], Terminated(pieces[1..], sep), sep);
      CountConcat(pieces[0], [sep], sep);
      assert Count([sep], sep) == 1 + Count("", sep);
    }
  }

  /** The number of pieces is the number of separators in the terminated text. */
  lemma {:induction false} PiecesAreSeparators(x: string, sep: char)
    ensures |Split(x, sep)| == Count(Norm(x, sep), sep)
    ensures Split(x, sep) == [] <==> x == ""
  {
    SplitIsClean(x, sep);
    PrintAfterSplit(x, sep);
    CountTerminated(Split(x, sep), sep);
  }

  /** A character the text does not hold is in none of its pieces. */
  lemma {:induction false} SplitKeepsOut(x: string, sep: char, c: char)
    requires c !in x
    ensures Clean(Split(x, sep), c)
    decreases |x|
  {
    if x != "" {
      var token, rest := FirstPiece(x, sep);
      assert forall k :: 0 <= k < |token| ==> token[k] == x[k];
      SplitKeepsOut(rest, sep, c);
    }
  }

  lemma {:induction false} TerminatedKeepsOut(pieces: seq<string>, sep: char, c: char)
    requires Clean(pieces, c) && c != sep
    ensures c !in Terminated(pieces, sep)
    decreases |pieces|
  {
    if pieces != [] { TerminatedKeepsOut(pieces[1..], sep, c); }
  }

  lemma {:induction false} JoinedKeepsOut(pieces: seq<string>, sep: char, c: char)
    requires Clean(pieces, c) && c != sep
    ensures c !in Joined(pieces, sep)
    decreases |pieces|
  {
    if |pieces| > 1 { JoinedKeepsOut(pieces[1..], sep, c); }
  }
}
