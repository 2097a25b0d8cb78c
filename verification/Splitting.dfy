/** Splitting a text at a separator character, and the joining that splitting undoes. */
module Splitting {
  /** The fields of `s` between separators; always at least one. */
  function Split(s: string, sep: char): (fs: seq<string>)
    ensures fs != []
  {
    if s == [] then [[]]
    else
      var rest := Split(s[1..], sep);
      if s[0] == sep then [[]] + rest else [[s[0]] + rest[0]] + rest[1..]
  }

  function Join(fs: seq<string>, sep: char): string
    requires fs != []
  {
    if |fs| == 1 then fs[0] else fs[0] + ([sep] + Join(fs[1..], sep))
  }

  ghost predicate Lacks(s: string, sep: char) {
    forall i :: 0 <= i < |s| ==> s[i] != sep
  }

  lemma {:induction false} SplitOfField(s: string, sep: char)
    requires Lacks(s, sep)
    ensures Split(s, sep) == [s]
  {
    if s != [] {
      SplitOfField(s[1..], sep);
      assert [s[0]] + s[1..] == s;
    }
  }

  /** A separator closes the first field. */
  lemma {:induction false} SplitOfCons(f: string, s: string, sep: char)
    requires Lacks(f, sep)
    ensures Split(f + ([sep] + s), sep) == [f] + Split(s, sep)
  {
    var t := f + ([sep] + s);
    if f == [] {
      assert t == [sep] + s;
    } else {
      assert t[1..] == f[1..] + ([sep] + s);
      SplitOfCons(f[1..], s, sep);
      assert [f[0]] + f[1..] == f;
    }
  }

  /** Splitting undoes joining, as long as no field contains the separator. */
  lemma {:induction false} SplitOfJoin(fs: seq<string>, sep: char)
    requires fs != [] && forall i :: 0 <= i < |fs| ==> Lacks(fs[i], sep)
    ensures Split(Join(fs, sep), sep) == fs
  {
    if |fs| == 1 {
      SplitOfField(fs[0], sep);
    } else {
      SplitOfJoin(fs[1..], sep);
      SplitOfCons(fs[0], Join(fs[1..], sep), sep);
    }
  }

  /** Joining undoes splitting, always. */
  lemma {:induction false} JoinOfSplit(s: string, sep: char)
    ensures Join(Split(s, sep), sep) == s
    ensures forall i :: 0 <= i < |Split(s, sep)| ==> Lacks(Split(s, sep)[i], sep)
  {
    if s != [] {
      JoinOfSplit(s[1..], sep);
      var rest := Split(s[1..], sep);
      if s[0] == sep {
        assert ([[]] + rest)[1..] == rest;
        assert [] + ([sep] + Join(rest, sep)) == s;
      } else {
        var fs := [[s[0]] + rest[0]] + rest[1..];
        assert fs[1..] == rest[1..];
        if |rest| > 1 {
          assert Join(fs, sep) == [s[0]] + rest[0] + ([sep] + Join(rest[1..], sep));
          assert Join(fs, sep) == [s[0]] + (rest[0] + ([sep] + Join(rest[1..], sep)));
        } else {
          assert Join(fs, sep) == [s[0]] + rest[0];
        }
      }
    }
  }

  /** A field ends at the next separator or at the end of the text. */
  lemma NextField(s: string, sep: char, before: seq<string>, start: nat, i: nat)
    requires start <= i <= |s| && Lacks(s[start..i], sep) && Split(s, sep) == before + Split(s[start..], sep)
    requires i == |s| || s[i] == sep
    ensures i == |s| ==> Split(s, sep) == before + [s[start..i]]
    ensures i < |s| ==> Split(s, sep) == before + [s[start..i]] + Split(s[i + 1..], sep)
  {
    hide Split;
    var f := s[start..i];
    if i == |s| {
      SplitOfField(f, sep);
      assert s[start..] == f;
    } else {
      assert s[start..] == f + ([sep] + s[i + 1..]);
      SplitOfCons(f, s[i + 1..], sep);
    }
  }

  /** The field with the given index, by counting separators; fails when there are too few. */
  method FieldAt(s: string, sep: char, index: nat) returns (ok: bool, field: string)
    ensures ok <==> index < |Split(s, sep)|
    ensures ok ==> field == Split(s, sep)[index]
  {
    hide Split;
    var current, start := 0, 0;
    ghost var before: seq<string> := [];
    assert s[0..] == s;
    for i := 0 to |s| + 1
      invariant |before| == current <= index
      invariant start <= i
      invariant i <= |s| ==> Lacks(s[start..i], sep) && Split(s, sep) == before + Split(s[start..], sep)
      invariant i == |s| + 1 ==> |Split(s, sep)| == current
    {
      if i == |s| || s[i] == sep {
        var f := s[start..i];
        NextField(s, sep, before, start, i);
        if current == index {
          return true, f;
        }
        before := before + [f];
        current := current + 1;
        start := i + 1;
      } else {
        assert s[start..i + 1] == s[start..i] + [s[i]];
      }
    }
    return false, [];
  }
}
