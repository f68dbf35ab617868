/**
 * The few Python string and list primitives the question rules are built
 * from: indexing with negative indices, the open-ended slice `s[k:]`,
 * `str.split` on a one-character separator and the `in` substring test.
 * Python's IndexError is an explicit outcome, so that a rule that indexes
 * out of range is modelled rather than excluded.
 */
module PyText {

  /** The value of a Python expression that may raise IndexError.
      Usable with `:-`, which propagates the exception as Python does. */
  datatype Eval<+T> = Ok(value: T) | IndexError {

    predicate IsFailure() {
      IndexError?
    }

    /** Only reached on an IndexError, which it passes on unchanged. */
    function PropagateFailure<U>(): Eval<U> {
      IndexError
    }

    function Extract(): T
      requires Ok?
    {
      value
    }
  }

  /** A value that may be absent. */
  datatype Option<+T> = None | Some(value: T)

  /** `xs[i]`: a negative index counts from the end; anything outside
      `-len(xs) .. len(xs)-1` raises IndexError. */
  function Index<T>(xs: seq<T>, i: int): (r: Eval<T>)
    ensures r.Ok? <==> -|xs| <= i < |xs|
    ensures 0 <= i < |xs| ==> r == Ok(xs[i])
    ensures -|xs| <= i < 0 ==> r == Ok(xs[|xs| + i])
  {
    if -|xs| <= i < |xs| then Ok(xs[if i < 0 then |xs| + i else i]) else IndexError
  }

  /** `s[k:]` for a non-negative `k`: never raises, and is empty once `k`
      passes the end. */
  function SliceFrom<T>(s: seq<T>, k: nat): (r: seq<T>)
    ensures k <= |s| ==> s == s[..k] + r
    ensures |s| <= k ==> r == []
  {
    if k <= |s| then s[k..] else []
  }

  /** `s.split(sep)`: the maximal separator-free pieces of `s`, in order;
      there is always at least one (the empty string splits into `[""]`). */
  function Split(s: string, sep: char): (fields: seq<string>)
    ensures |fields| >= 1
    ensures forall i :: 0 <= i < |fields| ==> sep !in fields[i]
    decreases |s|
  {
    if |s| == 0 then [""]
    else
      var rest := Split(s[1..], sep);
      if s[0] == sep then [""] + rest
      else [[s[0]] + rest[0]] + rest[1..]
  }

  /** `sep.join(fields)`, the inverse of `Split`. */
  function Join(fields: seq<string>, sep: char): string
    requires |fields| >= 1
    decreases |fields|
  {
    if |fields| == 1 then fields[0] else fields[0] + [sep] + Join(fields[1..], sep)
  }

  /** Joining the pieces back together gives the original string. */
  lemma {:induction false} JoinSplit(s: string, sep: char)
    ensures Join(Split(s, sep), sep) == s
    decreases |s|
  {
    if |s| > 0 {
      var rest := Split(s[1..], sep);
      JoinSplit(s[1..], sep);
      assert s == [s[0]] + s[1..];
      if s[0] != sep && |rest| > 1 {
        assert rest == [rest[0]] + rest[1..];
        assert rest[1..][1..] == rest[2..];
      }
    }
  }

  /** Splitting a separator-free prefix followed by more text glues the
      prefix onto the first piece of the rest. */
  lemma {:induction false} SplitPrefix(a: string, t: string, sep: char)
    requires sep !in a
    ensures Split(a + t, sep) == [a + Split(t, sep)[0]] + Split(t, sep)[1..]
    decreases |a|
  {
    if |a| == 0 {
      var fields := Split(t, sep);
      assert a + t == t;
      assert a + fields[0] == fields[0];
      assert fields == [fields[0]] + fields[1..];
    } else {
      assert (a + t)[0] == a[0];
      assert (a + t)[1..] == a[1..] + t;
      SplitPrefix(a[1..], t, sep);
      assert [a[0]] + (a[1..] + Split(t, sep)[0]) == a + Split(t, sep)[0];
    }
  }

  /** Splitting separator-free pieces joined by the separator gives the pieces back. */
  lemma {:induction false} SplitJoin(fields: seq<string>, sep: char)
    requires |fields| >= 1
    requires forall i :: 0 <= i < |fields| ==> sep !in fields[i]
    ensures Split(Join(fields, sep), sep) == fields
    decreases |fields|
  {
    if |fields| == 1 {
      SplitPrefix(fields[0], "", sep);
      assert fields[0] + "" == fields[0];
    } else {
      var tail := Join(fields[1..], sep);
      SplitJoin(fields[1..], sep);
      assert fields[0] + [sep] + tail == fields[0] + ([sep] + tail);
      SplitPrefix(fields[0], [sep] + tail, sep);
      assert ([sep] + tail)[0] == sep;
      assert ([sep] + tail)[1..] == tail;
      assert Split([sep] + tail, sep) == [""] + fields[1..];
      assert fields[0] + "" == fields[0];
      assert fields == [fields[0]] + fields[1..];
    }
  }

  /** The first piece is the prefix of `s` before its first separator: it is
      a prefix, and either it is all of `s` or the separator follows it. */
  lemma {:induction false} FirstFieldIsPrefixBeforeSep(s: string, sep: char)
    ensures Split(s, sep)[0] <= s
    ensures sep !in Split(s, sep)[0]
    ensures |Split(s, sep)[0]| == |s| || s[|Split(s, sep)[0]|] == sep
    decreases |s|
  {
    if |s| > 0 && s[0] != sep {
      FirstFieldIsPrefixBeforeSep(s[1..], sep);
    }
  }

  /** A string holding the separator splits into at least two pieces. */
  lemma {:induction false} SplitAtSep(s: string, sep: char)
    requires sep in s
    ensures |Split(s, sep)| >= 2
    decreases |s|
  {
    if s[0] != sep {
      assert sep in s[1..];
      SplitAtSep(s[1..], sep);
    }
  }

  /** `needle` starts at position `i` of `hay`. */
  predicate OccursAt(hay: string, needle: string, i: int) {
    0 <= i && i + |needle| <= |hay| && needle <= hay[i..]
  }

  /** Substring containment stated by position. */
  ghost predicate Occurs(hay: string, needle: string) {
    exists i :: OccursAt(hay, needle, i)
  }

  /** `needle in hay` for two Python strings, computed by scanning. */
  predicate Contains(hay: string, needle: string)
    decreases |hay|
  {
    needle <= hay || (|hay| > 0 && Contains(hay[1..], needle))
  }

  /** The scan finds exactly the positional occurrences. */
  lemma {:induction false} ContainsIffOccurs(hay: string, needle: string)
    ensures Contains(hay, needle) <==> Occurs(hay, needle)
    decreases |hay|
  {
    if needle <= hay {
      assert OccursAt(hay, needle, 0);
    } else if |hay| == 0 {
      assert |needle| > 0;
    } else {
      ContainsIffOccurs(hay[1..], needle);
      if Contains(hay[1..], needle) {
        var i :| OccursAt(hay[1..], needle, i);
        assert hay[1..][i..] == hay[i + 1..];
        assert OccursAt(hay, needle, i + 1);
      }
      if Occurs(hay, needle) {
        var i :| OccursAt(hay, needle, i);
        assert i != 0;
        assert hay[1..][i - 1..] == hay[i..];
        assert OccursAt(hay[1..], needle, i - 1);
      }
    }
  }
}
