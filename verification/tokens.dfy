/** Colon-delimited interaction identifiers.

    The slot-machine command packs several fields (command name, user id,
    game id, game name, button label) into one custom id for a button or a
    modal, and later recovers them by position after `split(":")`. This
    module models both directions: `Join` writes the fields with a delimiter
    between neighbours, `Split` cuts a string at every delimiter, and
    `JavaSplit` adds what `java.lang.String.split` does on top of that
    (a string without a delimiter comes back whole; trailing empty pieces
    are discarded).
 */
module Tokens {

  /** The reserved field delimiter of every button and modal id. */
  const Delimiter: char := ':'

  /** A field survives a trip through an id only when it holds no delimiter. */
  predicate DelimiterFree(s: string) {
    Delimiter !in s
  }

  predicate AllDelimiterFree(fields: seq<string>) {
    forall i :: 0 <= i < |fields| ==> DelimiterFree(fields[i])
  }

  /** The fields written in order, with one delimiter between neighbours. */
  function Join(fields: seq<string>): (r: string)
    ensures |fields| >= 1 ==> fields[0] <= r
    ensures |fields| >= 2 ==> |fields[0]| < |r| && r[|fields[0]|] == Delimiter
  {
    if |fields| == 0 then ""
    else if |fields| == 1 then fields[0]
    else fields[0] + [Delimiter] + Join(fields[1..])
  }

  /** Cuts `s` at every delimiter. The pieces are delimiter-free, there is
      always at least one, and joining them gives back `s`. */
  function Split(s: string): (parts: seq<string>)
    ensures |parts| >= 1
    ensures AllDelimiterFree(parts)
    ensures Join(parts) == s
    decreases |s|
  {
    if |s| == 0 then [""]
    else
      var rest := Split(s[1..]);
      if s[0] == Delimiter then
        assert ([""] + rest)[1..] == rest;
        [""] + rest
      else
        var parts := [[s[0]] + rest[0]] + rest[1..];
        assert parts[1..] == rest[1..];
        assert |rest| >= 2 ==> Join(rest) == rest[0] + [Delimiter] + Join(rest[1..]);
        assert Join(parts) == [s[0]] + Join(rest);
        assert s == [s[0]] + s[1..];
        parts
  }

  /** Removes the empty pieces at the end of `parts`, as `String.split`
      does when no limit is given. What is kept is a prefix of `parts`
      ending in a non-empty piece, and everything dropped was empty. */
  function DropTrailingEmpty(parts: seq<string>): (r: seq<string>)
    ensures r <= parts
    ensures forall i :: |r| <= i < |parts| ==> parts[i] == ""
    ensures |r| > 0 ==> r[|r| - 1] != ""
    decreases |parts|
  {
    if |parts| == 0 then []
    else if parts[|parts| - 1] == "" then DropTrailingEmpty(parts[..|parts| - 1])
    else parts
  }

  /** `s.split(":")` in Java: a string with no delimiter comes back as the
      one-element array holding it (even when it is empty); otherwise the
      pieces between delimiters, with trailing empty pieces removed. */
  function JavaSplit(s: string): (r: seq<string>)
    ensures AllDelimiterFree(r)
    ensures DelimiterFree(s) ==> r == [s]
    ensures !DelimiterFree(s) ==> r <= Split(s)
    ensures !DelimiterFree(s) ==> forall i :: |r| <= i < |Split(s)| ==> Split(s)[i] == ""
    ensures !DelimiterFree(s) && |r| > 0 ==> r[|r| - 1] != ""
  {
    if DelimiterFree(s) then [s] else DropTrailingEmpty(Split(s))
  }

  /** A delimiter-free string is a single piece. */
  lemma {:induction false} SplitDelimiterFree(f: string)
    requires DelimiterFree(f)
    ensures Split(f) == [f]
    decreases |f|
  {
    if |f| > 0 {
      SplitDelimiterFree(f[1..]);
      assert [f[0]] + f[1..] == f;
    }
  }

  /** Splitting a delimiter-free field followed by a delimiter yields that
      field and then the pieces of whatever follows. */
  lemma {:induction false} SplitAfterField(f: string, t: string)
    requires DelimiterFree(f)
    ensures Split(f + [Delimiter] + t) == [f] + Split(t)
    decreases |f|
  {
    var s := f + [Delimiter] + t;
    if |f| == 0 {
      assert s[1..] == t;
    } else {
      assert s[1..] == f[1..] + [Delimiter] + t;
      SplitAfterField(f[1..], t);
      assert [f[0]] + f[1..] == f;
    }
  }

  /** Round trip: splitting the join of delimiter-free fields gives them back. */
  lemma {:induction false} SplitJoin(fields: seq<string>)
    requires |fields| >= 1
    requires AllDelimiterFree(fields)
    ensures Split(Join(fields)) == fields
    decreases |fields|
  {
    if |fields| == 1 {
      SplitDelimiterFree(fields[0]);
    } else {
      SplitAfterField(fields[0], Join(fields[1..]));
      SplitJoin(fields[1..]);
      assert [fields[0]] + fields[1..] == fields;
    }
  }

  /** Joining at least two fields always puts a delimiter in the result. */
  lemma JoinHasDelimiter(fields: seq<string>)
    requires |fields| >= 2
    ensures !DelimiterFree(Join(fields))
  {
    assert Join(fields)[|fields[0]|] == Delimiter;
  }

  /** Java-style round trip: the fields come back exactly when the last one
      is non-empty (or there is only one field). */
  lemma {:induction false} JavaSplitJoin(fields: seq<string>)
    requires |fields| >= 1
    requires AllDelimiterFree(fields)
    requires |fields| == 1 || fields[|fields| - 1] != ""
    ensures JavaSplit(Join(fields)) == fields
  {
    if |fields| == 1 {
      assert Join(fields) == fields[0];
    } else {
      JoinHasDelimiter(fields);
      SplitJoin(fields);
    }
  }

  /** Java-style split keeps every field up to and including any non-empty
      one: reading index `k` of the split of a join is safe and returns
      field `k` whenever field `k` is non-empty. */
  lemma {:induction false} JavaSplitJoinPrefix(fields: seq<string>, k: nat)
    requires AllDelimiterFree(fields)
    requires k < |fields| && fields[k] != ""
    ensures k < |JavaSplit(Join(fields))|
    ensures forall i :: 0 <= i <= k ==> JavaSplit(Join(fields))[i] == fields[i]
  {
    if |fields| == 1 {
      assert Join(fields) == fields[0];
    } else {
      JoinHasDelimiter(fields);
      SplitJoin(fields);
    }
  }
}
