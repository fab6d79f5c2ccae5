/** Serialisation of the flag map into the compiler's argument vector
    (`createGccCommandLineArguments`): each key, followed by its value when
    the value is not blank. */
module CommandLine {
  import opened JavaText
  import opened ArgumentMap

  /** How many entries carry a non-blank value. */
  function NonBlankCount(es: seq<Entry>): (n: nat)
    ensures n <= |es|
  {
    if |es| == 0 then 0
    else (if IsBlank(es[0].1) then 0 else 1) + NonBlankCount(es[1..])
  }

  /** `createGccCommandLineArguments`, walking the entries in order. One
      token per entry plus one per non-blank value; the first token is the
      first entry's key. */
  function CreateArguments(es: seq<Entry>): (args: seq<string>)
    ensures |args| == |es| + NonBlankCount(es)
    ensures |es| > 0 ==> args[0] == es[0].0
  {
    if |es| == 0 then []
    else
      [es[0].0] + (if IsBlank(es[0].1) then [] else [es[0].1]) + CreateArguments(es[1..])
  }

  /** One entry gives its key, then its value unless that value is blank. */
  lemma CreateSingle(e: Entry)
    ensures CreateArguments([e]) == [e.0] + (if IsBlank(e.1) then [] else [e.1])
  {
    assert [e][1..] == [];
  }

  /** Serialisation works entry by entry, in order: the vector of a
      concatenation is the concatenation of the vectors. With
      `CreateSingle` this fixes the whole vector for any entries, whatever
      their values look like. */
  lemma {:induction false} CreateAppend(a: seq<Entry>, b: seq<Entry>)
    ensures CreateArguments(a + b) == CreateArguments(a) + CreateArguments(b)
  {
    if |a| == 0 {
      assert a + b == b;
    } else {
      assert (a + b)[0] == a[0];
      assert (a + b)[1..] == a[1..] + b;
      CreateAppend(a[1..], b);
    }
  }

  /** A reader of the vector in the compiler's flag-then-value form: a token
      is a flag, and the next token is its value unless that one starts with
      '-'. It is the reference against which the serialisation is checked. */
  function ParseArguments(args: seq<string>): (es: seq<Entry>)
    decreases |args|
  {
    if |args| == 0 then []
    else if |args| >= 2 && !StartsWith(args[1], "-") then
      [(args[0], args[1])] + ParseArguments(args[2..])
    else
      [(args[0], "")] + ParseArguments(args[1..])
  }

  /** The entries as the compiler sees them: a blank value is no value. */
  function Normalize(es: seq<Entry>): seq<Entry>
  {
    seq(|es|, i requires 0 <= i < |es| => (es[i].0, if IsBlank(es[i].1) then "" else es[i].1))
  }

  /** Entries whose keys are flags and whose non-blank values are not. */
  predicate Unambiguous(es: seq<Entry>)
  {
    forall i :: 0 <= i < |es| ==>
      StartsWith(es[i].0, "-") && (IsBlank(es[i].1) || !StartsWith(es[i].1, "-"))
  }

  /** Round trip: reading the vector back yields the entries in their
      original order, keys exactly, values with blanks dropped. So every
      key is emitted once, in entry order, each directly followed by its
      value when that value is non-blank. */
  lemma {:induction false} ParseCreateRoundTrip(es: seq<Entry>)
    requires Unambiguous(es)
    ensures ParseArguments(CreateArguments(es)) == Normalize(es)
  {
    if |es| > 0 {
      var e, tail := es[0], es[1..];
      UnambiguousTail(es);
      ParseCreateRoundTrip(tail);
      var rest := CreateArguments(tail);
      assert rest == [] || StartsWith(rest[0], "-");
      if IsBlank(e.1) {
        assert CreateArguments(es) == [e.0] + rest;
        ParseFlagAlone(e.0, rest);
      } else {
        assert CreateArguments(es) == [e.0, e.1] + rest;
        ParseFlagWithValue(e.0, e.1, rest);
      }
      NormalizeCons(es);
    }
  }

  lemma UnambiguousTail(es: seq<Entry>)
    requires Unambiguous(es) && |es| > 0
    ensures Unambiguous(es[1..])
    ensures StartsWith(es[0].0, "-") && (IsBlank(es[0].1) || !StartsWith(es[0].1, "-"))
  {
    var tail := es[1..];
    forall i | 0 <= i < |tail|
      ensures StartsWith(tail[i].0, "-") && (IsBlank(tail[i].1) || !StartsWith(tail[i].1, "-"))
    {
      assert tail[i] == es[i + 1];
    }
  }

  /** A flag followed by another flag, or by nothing, is read with no value. */
  lemma ParseFlagAlone(k: string, rest: seq<string>)
    requires rest == [] || StartsWith(rest[0], "-")
    ensures ParseArguments([k] + rest) == [(k, "")] + ParseArguments(rest)
  {
    assert ([k] + rest)[1..] == rest;
  }

  /** A flag followed by a non-flag token is read with that token as value. */
  lemma ParseFlagWithValue(k: string, v: string, rest: seq<string>)
    requires !StartsWith(v, "-")
    ensures ParseArguments([k, v] + rest) == [(k, v)] + ParseArguments(rest)
  {
    assert ([k, v] + rest)[2..] == rest;
  }

  lemma NormalizeCons(es: seq<Entry>)
    requires |es| > 0
    ensures Normalize(es) == [Normalize(es)[0]] + Normalize(es[1..])
  {
  }

  /** Every key appears among the arguments. */
  lemma {:induction false} CreateMentionsEveryKey(es: seq<Entry>, i: nat)
    requires i < |es|
    ensures es[i].0 in CreateArguments(es)
  {
    if i > 0 {
      CreateMentionsEveryKey(es[1..], i - 1);
    }
  }

  /** A string that is neither a key nor a value of any entry is not among
      the arguments. */
  lemma {:induction false} CreateOmitsStrangers(es: seq<Entry>, k: string)
    requires k !in Keys(es)
    requires forall j :: 0 <= j < |es| ==> es[j].1 != k
    ensures k !in CreateArguments(es)
  {
    if |es| > 0 {
      assert es[0].0 in Keys(es);
      var tail := es[1..];
      assert k !in Keys(tail) by {
        forall j | 0 <= j < |tail| ensures tail[j].0 != k {
          assert tail[j] == es[j + 1];
          assert es[j + 1].0 in Keys(es);
        }
      }
      forall j | 0 <= j < |tail| ensures tail[j].1 != k {
        assert tail[j] == es[j + 1];
      }
      CreateOmitsStrangers(tail, k);
    }
  }

  /** How often a string occurs among the arguments: once for the first
      key if it is that key, once for the first value if it is that
      non-blank value, plus its occurrences in the rest. */
  lemma CreateCount(es: seq<Entry>, x: string)
    requires |es| > 0
    ensures multiset(CreateArguments(es))[x]
         == (if es[0].0 == x then 1 else 0)
          + (if !IsBlank(es[0].1) && es[0].1 == x then 1 else 0)
          + multiset(CreateArguments(es[1..]))[x]
  {
    var head := [es[0].0] + (if IsBlank(es[0].1) then [] else [es[0].1]);
    assert CreateArguments(es) == head + CreateArguments(es[1..]);
  }

  /** Dropping the first entry of a map leaves a map without that key. */
  lemma DistinctTail(es: seq<Entry>)
    requires DistinctKeys(es) && |es| > 0
    ensures DistinctKeys(es[1..])
    ensures es[0].0 !in Keys(es[1..])
  {
    var tail := es[1..];
    forall a, b | 0 <= a < b < |tail| ensures tail[a].0 != tail[b].0 {
      assert tail[a] == es[a + 1] && tail[b] == es[b + 1];
    }
    forall j | 0 <= j < |tail| ensures tail[j].0 != es[0].0 {
      assert tail[j] == es[j + 1];
    }
  }

  /** In a map (keys distinct), a key that is no entry's value occurs among
      the arguments exactly once. */
  lemma {:induction false} CreateKeyOnce(es: seq<Entry>, i: nat)
    requires DistinctKeys(es) && i < |es|
    requires forall j :: 0 <= j < |es| ==> es[j].1 != es[i].0
    ensures multiset(CreateArguments(es))[es[i].0] == 1
  {
    var k, tail := es[i].0, es[1..];
    CreateCount(es, k);
    DistinctTail(es);
    forall j | 0 <= j < |tail| ensures tail[j].1 != k {
      assert tail[j] == es[j + 1];
    }
    if i == 0 {
      CreateOmitsStrangers(tail, k);
    } else {
      assert tail[i - 1] == es[i];
      CreateKeyOnce(tail, i - 1);
    }
  }

  /** Without CreateKeyOnce's second precondition a key can appear twice:
      the value of one entry is emitted as it stands, even when it equals
      the key of another. */
  lemma ValueEqualToKeyRepeats()
    ensures CreateArguments([("--a", "--b"), ("--b", "")]) == ["--a", "--b", "--b"]
  {
    CreateSingle(("--a", "--b"));
    CreateSingle(("--b", ""));
    CreateAppend([("--a", "--b")], [("--b", "")]);
    DashStartedNotBlank("--b");
    assert [("--a", "--b")] + [("--b", "")] == [("--a", "--b"), ("--b", "")];
  }
}
