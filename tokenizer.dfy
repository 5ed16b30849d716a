/** The file tokenizer of lab4sem/1 (Program.cs): the lines of a file split at a set of
    delimiter characters with empty pieces dropped, and the `IDisposable` flag that guards
    closing its reader. The file is given as its sequence of lines. */
module Tokenizer {
  import opened Text

  /** What `line.Split(delimiters, StringSplitOptions.RemoveEmptyEntries)` splits at: the
      delimiters, or white space when there are none. */
  function Separators(delimiters: set<char>): (seps: set<char>)
    ensures seps != {} && delimiters <= seps
  {
    if delimiters == {} then WhiteSpace else delimiters
  }

  /** The pieces that are not empty, in order. */
  function NonEmpty(parts: seq<string>): (r: seq<string>)
    ensures |r| <= |parts|
  {
    if parts == [] then []
    else (if parts[0] == [] then [] else [parts[0]]) + NonEmpty(parts[1..])
  }

  /** The tokens of one line: its pieces between separators, without the empty ones. */
  function SplitTokens(line: string, seps: set<char>): (r: seq<string>)
    ensures |r| <= Count(line, seps) + 1
    ensures forall k :: 0 <= k < |r| ==> r[k] != []
  {
    SplitAnyCount(line, seps);
    NonEmptyKeeps(SplitAny(line, seps));
    NonEmpty(SplitAny(line, seps))
  }

  /** The tokens of the lines, line after line. */
  function TokensOf(lines: seq<string>, seps: set<char>): (r: seq<string>)
    ensures forall k :: 0 <= k < |r| ==> r[k] != []
  {
    if lines == [] then []
    else TokensOf(lines[..|lines| - 1], seps) + SplitTokens(lines[|lines| - 1], seps)
  }

  /** `FileTokenizer`. The reader the constructor opens is only ever closed; `Tokenize` reads
      the file through a reader of its own. */
  class FileTokenizer {
    /** The file at `_filePath`, as the lines `ReadLine` returns. */
    const lines: seq<string>
    const delimiters: set<char>
    var readerOpen: bool
    var disposed: bool
    var finalizerSuppressed: bool

    constructor (lines: seq<string>, delimiters: set<char>)
      ensures this.lines == lines && this.delimiters == delimiters
      ensures readerOpen && !disposed && !finalizerSuppressed
    {
      this.lines := lines;
      this.delimiters := delimiters;
      readerOpen := true;
      disposed := false;
      finalizerSuppressed := false;
    }

    /** `Tokenize`: reads the file line by line and appends every token of each line. */
    method Tokenize() returns (tokens: seq<string>)
      ensures tokens == TokensOf(lines, Separators(delimiters))
    {
      var seps := Separators(delimiters);
      tokens := [];
      var n := 0;
      while n < |lines|
        invariant 0 <= n <= |lines|
        invariant tokens == TokensOf(lines[..n], seps)
      {
        var line := lines[n];
        var parts := SplitTokens(line, seps);
        PrefixOfPrefix(lines, n, n + 1);
        for k := 0 to |parts|
          invariant tokens == TokensOf(lines[..n], seps) + parts[..k]
        {
          TakeSnoc(parts, k + 1);
          tokens := tokens + [parts[k]];
        }
        TakeAll(parts);
        n := n + 1;
      }
      TakeAll(lines);
    }

    /** `Dispose(bool)`: the first call marks the tokenizer disposed, closing the reader when
        called from `Dispose()`; later calls do nothing. */
    method DisposeCore(disposing: bool)
      modifies this
      ensures disposed
      ensures readerOpen == (old(readerOpen) && (old(disposed) || !disposing))
      ensures finalizerSuppressed == old(finalizerSuppressed)
    {
      if !disposed {
        if disposing {
          readerOpen := false;
        }
        disposed := true;
      }
    }

    /** `Dispose()`: releases the reader and stops the finalizer from running. */
    method Dispose()
      modifies this
      ensures disposed && finalizerSuppressed
      ensures readerOpen == (old(readerOpen) && old(disposed))
    {
      DisposeCore(true);
      finalizerSuppressed := true;
    }

    /** The finalizer: `Dispose(false)`, which leaves the reader as it is. */
    method Finalize()
      modifies this
      ensures disposed && readerOpen == old(readerOpen)
      ensures finalizerSuppressed == old(finalizerSuppressed)
    {
      DisposeCore(false);
    }
  }

  /** A `using` block around a fresh tokenizer: its tokens, then `Dispose()` twice, where the
      second call changes nothing. */
  method UsingTokenizer(lines: seq<string>, delimiters: set<char>)
    returns (tokens: seq<string>, readerOpen: bool, disposed: bool)
    ensures tokens == TokensOf(lines, Separators(delimiters))
    ensures !readerOpen && disposed
  {
    var tokenizer := new FileTokenizer(lines, delimiters);
    tokens := tokenizer.Tokenize();
    tokenizer.Dispose();
    tokenizer.Dispose();
    readerOpen, disposed := tokenizer.readerOpen, tokenizer.disposed;
  }

  // ---- properties of the tokens ----

  /** Dropping empty pieces distributes over concatenation. */
  lemma {:induction false} NonEmptyAppend(a: seq<string>, b: seq<string>)
    ensures NonEmpty(a + b) == NonEmpty(a) + NonEmpty(b)
  {
    if a != [] {
      assert (a + b)[1..] == a[1..] + b;
      NonEmptyAppend(a[1..], b);
    } else {
      assert a + b == b;
    }
  }

  /** Every kept piece is one of the pieces, and is not empty. */
  lemma {:induction false} NonEmptyKeeps(parts: seq<string>)
    ensures forall k :: 0 <= k < |NonEmpty(parts)| ==>
              NonEmpty(parts)[k] != [] && NonEmpty(parts)[k] in parts
  {
    if parts != [] {
      NonEmptyKeeps(parts[1..]);
    }
  }

  /** No token is empty and no token holds a separator. */
  lemma TokensNonEmptyAndFree(line: string, seps: set<char>)
    ensures forall k :: 0 <= k < |SplitTokens(line, seps)| ==>
              SplitTokens(line, seps)[k] != [] && Free(SplitTokens(line, seps)[k], seps)
  {
    var parts := SplitAny(line, seps);
    NonEmptyKeeps(parts);
    SplitAnyFree(line, seps);
  }

  /** The characters of `s` that are not separators, in order. */
  function Strip(s: string, seps: set<char>): string
  {
    if s == [] then [] else (if s[0] in seps then [] else [s[0]]) + Strip(s[1..], seps)
  }

  /** The tokens one after another. */
  function Concat(tokens: seq<string>): string
  {
    if tokens == [] then [] else tokens[0] + Concat(tokens[1..])
  }

  /** The first piece of a split is empty exactly when the string is empty or starts with a
      separator; otherwise it starts with the string's first character. */
  lemma SplitAnyFirst(s: string, seps: set<char>)
    ensures SplitAny(s, seps)[0] == [] <==> s == [] || s[0] in seps
    ensures s != [] && s[0] !in seps ==> SplitAny(s, seps)[0][0] == s[0]
  {
  }

  /** Concatenation distributes over appending token lists. */
  lemma {:induction false} ConcatAppend(a: seq<string>, b: seq<string>)
    ensures Concat(a + b) == Concat(a) + Concat(b)
  {
    if a == [] {
      assert a + b == b;
    } else {
      assert (a + b)[1..] == a[1..] + b;
      ConcatAppend(a[1..], b);
    }
  }

  /** The tokens of a line, one after another, are the line without its separators. */
  lemma {:induction false} ConcatTokens(line: string, seps: set<char>)
    ensures Concat(SplitTokens(line, seps)) == Strip(line, seps)
  {
    if line != [] {
      var rest := SplitAny(line[1..], seps);
      ConcatTokens(line[1..], seps);
      if line[0] in seps {
        assert SplitAny(line, seps) == [""] + rest;
        NonEmptyAppend([""], rest);
        assert SplitTokens(line, seps) == SplitTokens(line[1..], seps);
      } else {
        var tail := NonEmpty(rest[1..]);
        var first := [line[0]] + rest[0];
        assert rest == [rest[0]] + rest[1..];
        NonEmptyAppend([rest[0]], rest[1..]);
        ConcatAppend(NonEmpty([rest[0]]), tail);
        assert Concat(NonEmpty([rest[0]])) == rest[0];
        assert Strip(line[1..], seps) == rest[0] + Concat(tail);
        assert SplitAny(line, seps) == [first] + rest[1..];
        NonEmptyAppend([first], rest[1..]);
        assert SplitTokens(line, seps) == [first] + tail;
        assert Concat([first] + tail) == first + Concat(tail);
      }
    }
  }

  /** The maximal runs of non-separator characters of `s`, scanned from the left: a character
      that is not a separator starts a new run unless the one before it also belongs to a run. */
  function Runs(s: string, seps: set<char>): seq<string>
  {
    if s == [] then []
    else if s[0] in seps then Runs(s[1..], seps)
    else
      var r := Runs(s[1..], seps);
      if |s| > 1 && s[1] !in seps && r != [] then [[s[0]] + r[0]] + r[1..] else [[s[0]]] + r
  }

  /** The tokens of a line are its maximal runs of non-separator characters, in order. */
  lemma {:induction false} TokensAreRuns(line: string, seps: set<char>)
    ensures SplitTokens(line, seps) == Runs(line, seps)
  {
    if line != [] {
      var t := line[1..];
      var rest := SplitAny(t, seps);
      TokensAreRuns(t, seps);
      SplitAnyFirst(t, seps);
      assert rest == [rest[0]] + rest[1..];
      NonEmptyAppend([rest[0]], rest[1..]);
      if line[0] in seps {
        assert SplitAny(line, seps) == [""] + rest;
        NonEmptyAppend([""], rest);
        assert NonEmpty([""]) == [];
      } else {
        var first := [line[0]] + rest[0];
        assert SplitAny(line, seps) == [first] + rest[1..];
        NonEmptyAppend([first], rest[1..]);
        assert NonEmpty([first]) == [first];
        if |line| > 1 && line[1] !in seps {
          assert rest[0] != [];
          assert NonEmpty([rest[0]]) == [rest[0]];
          assert Runs(t, seps) == [rest[0]] + NonEmpty(rest[1..]);
        } else {
          assert rest[0] == [] && first == [line[0]];
          assert NonEmpty([rest[0]]) == [];
          assert Runs(t, seps) == NonEmpty(rest[1..]);
        }
      }
    }
  }

  /** A line made only of separators, the empty line included, has no tokens. */
  lemma {:induction false} SeparatorsOnlyNoTokens(line: string, seps: set<char>)
    requires forall i :: 0 <= i < |line| ==> line[i] in seps
    ensures SplitTokens(line, seps) == []
  {
    if line != [] {
      SeparatorsOnlyNoTokens(line[1..], seps);
      assert SplitAny(line, seps) == [""] + SplitAny(line[1..], seps);
      NonEmptyAppend([""], SplitAny(line[1..], seps));
    }
  }

  /** The tokens of two files one after the other are the tokens of the first followed by
      those of the second: no token spans a line break. */
  lemma {:induction false} TokensOfAppend(a: seq<string>, b: seq<string>, seps: set<char>)
    ensures TokensOf(a + b, seps) == TokensOf(a, seps) + TokensOf(b, seps)
  {
    if b != [] {
      var b' := b[..|b| - 1];
      assert (a + b)[..|a + b| - 1] == a + b';
      TokensOfAppend(a, b', seps);
    } else {
      assert a + b == a;
    }
  }
}
