/** The per-file driver: every file's decoded text is split into lines, each
    line into tokens, each token filtered, and every accepted word counted in
    the one frequency table of the run.  Reading and decoding the files is
    outside the model: a file is its already-decoded text. */
module Pipeline {
  import opened Splitting
  import opened WordFilter
  import opened Frequency

  /** A document's lines: its text split on every newline. */
  function Lines(text: string): (lines: seq<string>)
    ensures |lines| >= 1
    ensures forall i :: 0 <= i < |lines| ==> '\n' !in lines[i]
    ensures Join(lines, '\n') == text
  {
    JoinSplit(text, '\n');
    Split(text, '\n')
  }

  /** A line's token candidates: the line split on every single space. */
  function Tokenize(line: string): (tokens: seq<string>)
    ensures |tokens| >= 1
    ensures forall i :: 0 <= i < |tokens| ==> ' ' !in tokens[i]
    ensures Join(tokens, ' ') == line
  {
    JoinSplit(line, ' ');
    Split(line, ' ')
  }

  /** The concatenation of `f(x)` over `xs`, in order. */
  ghost function ConcatMap(xs: seq<string>, f: string -> seq<string>): seq<string>
  {
    if xs == [] then [] else ConcatMap(xs[..|xs| - 1], f) + f(xs[|xs| - 1])
  }

  /** Every token candidate of a document, line after line. */
  ghost function DocumentTokens(text: string): seq<string>
  {
    ConcatMap(Lines(text), Tokenize)
  }

  /** Every token candidate of every file, file after file. */
  ghost function CorpusTokens(files: seq<string>): seq<string>
  {
    ConcatMap(files, DocumentTokens)
  }

  /** The work done for one line (the closure each worker runs): every
      token candidate of the line goes through the filter, and each accepted
      word is inserted with count one or has its count raised by one. */
  method AddLine(words: map<string, nat>, line: string) returns (updated: map<string, nat>)
    ensures updated == AddTokens(words, Tokenize(line))
    ensures forall w :: Get(updated, w) == Get(words, w) + Occurrences(Tokenize(line), w)
  {
    var tokens := Tokenize(line);
    updated := words;
    for k := 0 to |tokens|
      invariant updated == AddTokens(words, tokens[..k])
    {
      assert tokens[..k + 1][..k] == tokens[..k];
      match Filter(tokens[k]) {
        case Accept(w) =>
          updated := Increment(updated, w);
        case Reject(_) =>
      }
    }
    assert tokens[..|tokens|] == tokens;
    AddTokensCounts(words, tokens);
  }

  /** Processes one document into the table, line after line.  Each word's
      count rises by the number of the document's tokens that normalize to
      it; words no token normalizes to keep their count, and only such words
      become new keys. */
  method AddDocument(words: map<string, nat>, text: string) returns (updated: map<string, nat>)
    ensures updated == AddTokens(words, DocumentTokens(text))
    ensures forall w :: Get(updated, w) == Get(words, w) + Occurrences(DocumentTokens(text), w)
    ensures forall w :: w in updated <==> w in words || Occurrences(DocumentTokens(text), w) > 0
  {
    var lines := Lines(text);
    updated := words;
    for j := 0 to |lines|
      invariant updated == AddTokens(words, ConcatMap(lines[..j], Tokenize))
    {
      updated := AddLine(updated, lines[j]);
      AddTokensAppend(words, ConcatMap(lines[..j], Tokenize), Tokenize(lines[j]));
      assert lines[..j + 1][..j] == lines[..j];
    }
    assert lines[..|lines|] == lines;
    AddTokensCounts(words, DocumentTokens(text));
  }

  /** The whole run: the files one after another, all feeding one table that
      starts empty.  The final count of each word is the number of token
      candidates, over all files, that normalize to it; every key is a
      normalized word with a positive count. */
  method CountCorpus(files: seq<string>) returns (words: map<string, nat>)
    ensures words == AddTokens(map[], CorpusTokens(files))
    ensures forall w :: Get(words, w) == Occurrences(CorpusTokens(files), w)
    ensures forall w :: w in words ==> NormalizedWord(w) && words[w] > 0
  {
    words := map[];
    for i := 0 to |files|
      invariant words == AddTokens(map[], CorpusTokens(files[..i]))
    {
      words := AddDocument(words, files[i]);
      AddTokensAppend(map[], CorpusTokens(files[..i]), DocumentTokens(files[i]));
      assert files[..i + 1][..i] == files[..i];
    }
    assert files[..|files|] == files;
    AddTokensCounts(map[], CorpusTokens(files));
    forall w | w in words
      ensures NormalizedWord(w)
    {
      OccurrencesNormalized(CorpusTokens(files), w);
    }
  }

  lemma {:induction false} ConcatMapAppend(xs: seq<string>, ys: seq<string>, f: string -> seq<string>)
    ensures ConcatMap(xs + ys, f) == ConcatMap(xs, f) + ConcatMap(ys, f)
    decreases |ys|
  {
    if ys == [] {
      assert xs + ys == xs;
    } else {
      ConcatMapAppend(xs, ys[..|ys| - 1], f);
      assert (xs + ys)[..|xs + ys| - 1] == xs + ys[..|ys| - 1];
    }
  }

  /** Reordering the pieces reorders, and only reorders, what they yield. */
  lemma {:induction false} ConcatMapPermutation(xs: seq<string>, ys: seq<string>, f: string -> seq<string>)
    requires multiset(xs) == multiset(ys)
    ensures multiset(ConcatMap(xs, f)) == multiset(ConcatMap(ys, f))
    decreases |xs|
  {
    if xs == [] {
      assert |multiset(ys)| == 0;
    } else {
      var x := xs[|xs| - 1];
      var rest := xs[..|xs| - 1];
      assert xs == rest + [x];
      assert x in multiset(ys);
      var i :| 0 <= i < |ys| && ys[i] == x;
      assert ys == ys[..i] + [x] + ys[i + 1..];
      var others := ys[..i] + ys[i + 1..];
      calc {
        multiset(rest);
        multiset(xs) - multiset{x};
        multiset(ys) - multiset{x};
        multiset(ys[..i]) + multiset{x} + multiset(ys[i + 1..]) - multiset{x};
        multiset(others);
      }
      ConcatMapPermutation(rest, others, f);
      ConcatMapAppend(ys[..i] + [x], ys[i + 1..], f);
      ConcatMapAppend(ys[..i], [x], f);
      ConcatMapAppend(ys[..i], ys[i + 1..], f);
      assert ConcatMap([x], f) == f(x) by {
        assert [x][..0] == [];
      }
    }
  }

  /** The lines of a document may be processed in any order: the table is
      the same. */
  lemma LineOrderIrrelevant(words: map<string, nat>, text: string, lines: seq<string>)
    requires multiset(lines) == multiset(Lines(text))
    ensures AddTokens(words, ConcatMap(lines, Tokenize)) == AddTokens(words, DocumentTokens(text))
  {
    ConcatMapPermutation(lines, Lines(text), Tokenize);
    AddTokensPermutation(words, ConcatMap(lines, Tokenize), DocumentTokens(text));
  }

  /** The files may be visited in any order: the final table is the same. */
  lemma FileOrderIrrelevant(files: seq<string>, reordered: seq<string>)
    requires multiset(files) == multiset(reordered)
    ensures AddTokens(map[], CorpusTokens(files)) == AddTokens(map[], CorpusTokens(reordered))
  {
    ConcatMapPermutation(files, reordered, DocumentTokens);
    AddTokensPermutation(map[], CorpusTokens(files), CorpusTokens(reordered));
  }
}
