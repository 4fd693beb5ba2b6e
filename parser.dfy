/**
 * The command-argument tokenizer of Bot/core/utils/parser.py.
 *
 * `ParseArgs` is the source's left-to-right loop; `Tokens` specifies it as a
 * fold of one scanner step over the text, and the lemmas below say what the
 * tokens are: never empty, never holding a double quote, together spelling
 * the text minus its quotes and unquoted spaces, and for quote-free text the
 * same as splitting on ' ' and dropping the empty pieces.
 */
module Parser {

  const Quote: char := '"'
  const Space: char := ' '

  /** The loop's variables: finished arguments, the token being built, and
    * whether an opening quote is still unmatched. */
  datatype Scan = Scan(args: seq<string>, current: string, inQuotes: bool)

  const Start: Scan := Scan([], "", false)

  /** One iteration of the loop body on character `c`. */
  function Step(st: Scan, c: char): Scan {
    if c == Quote && !st.inQuotes then st.(inQuotes := true)
    else if c == Quote && st.inQuotes then st.(inQuotes := false)
    else if c == Space && !st.inQuotes then
      (if st.current != "" then Scan(st.args + [st.current], "", st.inQuotes) else st)
    else st.(current := st.current + [c])
  }

  /** The loop state after consuming all of `s`. */
  function ScanAll(s: string): Scan {
    if s == [] then Start else Step(ScanAll(s[..|s| - 1]), s[|s| - 1])
  }

  /** The trailing `if current: args.append(current)`. */
  function Finish(st: Scan): seq<string> {
    if st.current != "" then st.args + [st.current] else st.args
  }

  /** The arguments `parse_args(text)` returns. */
  function Tokens(text: string): seq<string> {
    Finish(ScanAll(text))
  }

  // ---------------------------------------------------------------------
  // Reference definitions the tokens are compared against

  function QuoteCount(s: string): nat {
    if s == [] then 0 else QuoteCount(s[..|s| - 1]) + (if s[|s| - 1] == Quote then 1 else 0)
  }

  /** Whether `s` leaves a double quote open (an odd number of quotes). */
  predicate OpenQuote(s: string) {
    QuoteCount(s) % 2 == 1
  }

  /** `s` with every double quote and every space outside quotes removed. */
  function Kept(s: string): string {
    if s == [] then []
    else
      var init, c := s[..|s| - 1], s[|s| - 1];
      Kept(init) + (if c == Quote || (c == Space && !OpenQuote(init)) then [] else [c])
  }

  function Concat(ss: seq<string>): string {
    if ss == [] then [] else Concat(ss[..|ss| - 1]) + ss[|ss| - 1]
  }

  /** Python's `s.split(sep)`: the pieces between separators, empty ones included. */
  function SplitOn(s: string, sep: char): (pieces: seq<string>)
    ensures |pieces| > 0
  {
    if s == [] then [""]
    else
      var ps := SplitOn(s[..|s| - 1], sep);
      if s[|s| - 1] == sep then ps + [""]
      else ps[..|ps| - 1] + [ps[|ps| - 1] + [s[|s| - 1]]]
  }

  /** The pieces that are not the empty string, in order. */
  function DropEmpty(ss: seq<string>): (r: seq<string>)
    ensures forall i :: 0 <= i < |r| ==> r[i] != ""
  {
    if ss == [] then []
    else DropEmpty(ss[..|ss| - 1]) + (if ss[|ss| - 1] == "" then [] else [ss[|ss| - 1]])
  }

  // ---------------------------------------------------------------------
  // The source's loop

  method ParseArgs(text: string) returns (args: seq<string>)
    ensures args == Tokens(text)
    ensures text == "" ==> args == []
    ensures forall i :: 0 <= i < |args| ==> args[i] != "" && Quote !in args[i]
    ensures Concat(args) == Kept(text) && |Concat(args)| <= |text|
    ensures Quote !in text ==> args == DropEmpty(SplitOn(text, Space))
  {
    if text == "" {
      return [];
    }
    args := [];
    var current := "";
    var inQuotes := false;
    for i := 0 to |text|
      invariant Scan(args, current, inQuotes) == ScanAll(text[..i])
    {
      assert text[..i + 1][..i] == text[..i];
      var c := text[i];
      if c == Quote && !inQuotes {
        inQuotes := true;
      } else if c == Quote && inQuotes {
        inQuotes := false;
      } else if c == Space && !inQuotes {
        if current != "" {
          args := args + [current];
          current := "";
        }
      } else {
        current := current + [c];
      }
    }
    if current != "" {
      args := args + [current];
    }
    assert text[..|text|] == text;
    TokensWellFormed(text);
    TokensSpellKept(text);
    KeptLength(text);
    if Quote !in text {
      TokensSplitWithoutQuotes(text);
    }
  }

  // ---------------------------------------------------------------------
  // What the tokens are

  lemma {:induction false} ScanWellFormed(s: string)
    ensures forall i :: 0 <= i < |ScanAll(s).args| ==> ScanAll(s).args[i] != "" && Quote !in ScanAll(s).args[i]
    ensures Quote !in ScanAll(s).current
  {
    if s != [] {
      ScanWellFormed(s[..|s| - 1]);
    }
  }

  /** No argument is empty and none contains a double quote. */
  lemma TokensWellFormed(text: string)
    ensures forall i :: 0 <= i < |Tokens(text)| ==> Tokens(text)[i] != "" && Quote !in Tokens(text)[i]
  {
    ScanWellFormed(text);
  }

  lemma ConcatAppend(ss: seq<string>, t: string)
    ensures Concat(ss + [t]) == Concat(ss) + t
  {
    assert (ss + [t])[..|ss|] == ss;
  }

  lemma {:induction false} ScanSpellsKept(s: string)
    ensures ScanAll(s).inQuotes == OpenQuote(s)
    ensures Concat(ScanAll(s).args) + ScanAll(s).current == Kept(s)
  {
    if s != [] {
      var init, c := s[..|s| - 1], s[|s| - 1];
      ScanSpellsKept(init);
      var st := ScanAll(init);
      if c == Space && !st.inQuotes && st.current != "" {
        ConcatAppend(st.args, st.current);
      }
    }
  }

  /** Joined together, the arguments are the text with its double quotes and
    * its unquoted spaces taken out: quoted spaces, tabs and newlines stay. */
  lemma TokensSpellKept(text: string)
    ensures Concat(Tokens(text)) == Kept(text)
  {
    ScanSpellsKept(text);
    var st := ScanAll(text);
    if st.current != "" {
      ConcatAppend(st.args, st.current);
    }
  }

  lemma {:induction false} KeptLength(s: string)
    ensures |Kept(s)| <= |s|
  {
    if s != [] {
      KeptLength(s[..|s| - 1]);
    }
  }

  lemma {:induction false} ScanWithoutQuotes(s: string)
    requires Quote !in s
    ensures var ps := SplitOn(s, Space);
            ScanAll(s) == Scan(DropEmpty(ps[..|ps| - 1]), ps[|ps| - 1], false)
  {
    if s != [] {
      var init, c := s[..|s| - 1], s[|s| - 1];
      assert Quote !in init by {
        forall k | 0 <= k < |init| ensures init[k] != Quote { assert init[k] == s[k]; }
      }
      ScanWithoutQuotes(init);
      var ps := SplitOn(init, Space);
      var qs := SplitOn(s, Space);
      if c == Space {
        assert qs[..|qs| - 1] == ps;
        assert ps == ps[..|ps| - 1] + [ps[|ps| - 1]];
      } else {
        assert qs[..|qs| - 1] == ps[..|ps| - 1];
      }
    }
  }

  /** Without double quotes, the arguments are `text.split(' ')` minus the empty pieces. */
  lemma TokensSplitWithoutQuotes(text: string)
    requires Quote !in text
    ensures Tokens(text) == DropEmpty(SplitOn(text, Space))
  {
    ScanWithoutQuotes(text);
    var ps := SplitOn(text, Space);
    assert ps == ps[..|ps| - 1] + [ps[|ps| - 1]];
  }

  lemma {:induction false} ScanInsideQuotes(pre: string, rest: string)
    requires ScanAll(pre).inQuotes && Quote !in rest
    ensures ScanAll(pre + rest) == ScanAll(pre).(current := ScanAll(pre).current + rest)
  {
    if rest == [] {
      assert pre + rest == pre;
    } else {
      var init := rest[..|rest| - 1];
      assert (pre + rest)[..|pre + rest| - 1] == pre + init;
      assert Quote !in init by {
        forall k | 0 <= k < |init| ensures init[k] != Quote { assert init[k] == rest[k]; }
      }
      ScanInsideQuotes(pre, init);
      assert init + [rest[|rest| - 1]] == rest;
    }
  }

  /** A quote that is never closed glues the rest of the text, spaces
    * included, onto the last argument. */
  lemma UnterminatedQuote(pre: string, rest: string)
    requires !OpenQuote(pre) && Quote !in rest && rest != ""
    ensures Tokens(pre + [Quote] + rest) == ScanAll(pre).args + [ScanAll(pre).current + rest]
  {
    ScanSpellsKept(pre);
    assert (pre + [Quote])[..|pre|] == pre;
    ScanInsideQuotes(pre + [Quote], rest);
  }
}
