/**
 * Assembling per-chunk transcripts into one text, as Python's
 * `'\n'.join(transcriptions)` does, and the matching `str.split('\n')`
 * that takes such a text apart again.
 */
module Assembly {

  const Separator: char := '\n'

  /** The texts in order, with one separator between neighbours and none at either end. */
  function Join(texts: seq<string>): string
  {
    if |texts| == 0 then ""
    else if |texts| == 1 then texts[0]
    else texts[0] + [Separator] + Join(texts[1..])
  }

  /** Python's `s.split('\n')`: the maximal separator-free pieces between separators. */
  function Split(s: string): (parts: seq<string>)
    ensures |parts| >= 1
    ensures forall k :: 0 <= k < |parts| ==> Separator !in parts[k]
    decreases |s|
  {
    if s == [] then [""]
    else
      var rest := Split(s[1..]);
      if s[0] == Separator then [""] + rest
      else [[s[0]] + rest[0]] + rest[1..]
  }

  /** Total number of characters of all the texts. */
  function TotalLength(texts: seq<string>): nat
  {
    if texts == [] then 0 else |texts[0]| + TotalLength(texts[1..])
  }

  /** Appending one more transcript adds exactly one separator and that text, unchanged. */
  lemma {:induction false} JoinAppend(texts: seq<string>, t: string)
    requires texts != []
    ensures Join(texts + [t]) == Join(texts) + [Separator] + t
  {
    if |texts| > 1 {
      assert (texts + [t])[1..] == texts[1..] + [t];
      JoinAppend(texts[1..], t);
    }
  }

  /** The joined text holds every character of every part plus one separator per boundary. */
  lemma {:induction false} JoinLength(texts: seq<string>)
    requires texts != []
    ensures |Join(texts)| == TotalLength(texts) + |texts| - 1
  {
    if |texts| > 1 {
      JoinLength(texts[1..]);
    } else {
      assert texts[1..] == [];
    }
  }

  lemma {:induction false} SplitSeparatorFree(t: string)
    requires Separator !in t
    ensures Split(t) == [t]
    decreases |t|
  {
    if t != [] {
      assert Separator !in t[1..] by {
        forall i | 0 <= i < |t[1..]| ensures t[1..][i] != Separator { assert t[1..][i] == t[i + 1]; }
      }
      SplitSeparatorFree(t[1..]);
      assert t[0] != Separator;
      assert [t[0]] + t[1..] == t;
    }
  }

  lemma {:induction false} SplitAtSeparator(t: string, r: string)
    requires Separator !in t
    ensures Split(t + [Separator] + r) == [t] + Split(r)
    decreases |t|
  {
    if t == [] {
      assert t + [Separator] + r == [Separator] + r;
      assert ([Separator] + r)[1..] == r;
    } else {
      assert (t + [Separator] + r)[1..] == t[1..] + [Separator] + r;
      assert Separator !in t[1..] by {
        forall i | 0 <= i < |t[1..]| ensures t[1..][i] != Separator { assert t[1..][i] == t[i + 1]; }
      }
      SplitAtSeparator(t[1..], r);
      assert [t[0]] + t[1..] == t;
    }
  }

  /**
   * Splitting the joined text gives the transcripts back, provided none of
   * them contains a separator itself (with one, the boundary is ambiguous).
   */
  lemma {:induction false} SplitJoin(texts: seq<string>)
    requires texts != []
    requires forall k :: 0 <= k < |texts| ==> Separator !in texts[k]
    ensures Split(Join(texts)) == texts
  {
    if |texts| == 1 {
      SplitSeparatorFree(texts[0]);
    } else {
      SplitJoin(texts[1..]);
      SplitAtSeparator(texts[0], Join(texts[1..]));
    }
  }

  /** Joining the pieces of any text gives that text back: nothing is trimmed or dropped. */
  lemma {:induction false} JoinSplit(s: string)
    ensures Join(Split(s)) == s
    decreases |s|
  {
    if s != [] {
      var rest := Split(s[1..]);
      JoinSplit(s[1..]);
      if s[0] == Separator {
        assert ([""] + rest)[1..] == rest;
      } else if |rest| > 1 {
        var parts := [[s[0]] + rest[0]] + rest[1..];
        assert parts[1..] == rest[1..];
        assert [s[0]] + s[1..] == s;
      } else {
        assert [s[0]] + s[1..] == s;
      }
    }
  }
}
