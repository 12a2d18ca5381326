/**
 * `read_fids_from_file`, after the file has been read: every line is
 * stripped of surrounding whitespace, lines left empty are dropped, and
 * what remains is collected into a set of FID strings.
 */
module FidLoader {
  import opened PyText

  /** The list comprehension: stripped lines, blank ones dropped, file order kept. */
  function StrippedIds(lines: seq<string>): (ids: seq<string>)
    ensures |ids| <= |lines|
  {
    if lines == [] then
      []
    else
      var s := Strip(lines[0]);
      (if s != [] then [s] else []) + StrippedIds(lines[1..])
  }

  /** The set of FIDs `read_fids_from_file` returns for a file with these lines. */
  function LoadFids(lines: seq<string>): (fids: set<string>)
    ensures |fids| <= |lines|
  {
    var ids := StrippedIds(lines);
    SetOfSeqSize(ids);
    set id | id in ids
  }

  lemma {:induction false} SetOfSeqSize<T>(s: seq<T>)
    ensures |(set x | x in s)| <= |s|
  {
    if s != [] {
      SetOfSeqSize(s[1..]);
      assert (set x | x in s) == {s[0]} + (set x | x in s[1..]);
    }
  }

  lemma {:induction false} StrippedIdsMembership(lines: seq<string>, id: string)
    ensures id in StrippedIds(lines) <==> id != [] && exists i :: 0 <= i < |lines| && Strip(lines[i]) == id
  {
    if lines != [] {
      StrippedIdsMembership(lines[1..], id);
      if id != [] && (exists i :: 0 <= i < |lines| && Strip(lines[i]) == id) {
        var i :| 0 <= i < |lines| && Strip(lines[i]) == id;
        if i > 0 {
          assert Strip(lines[1..][i - 1]) == id;
        }
      }
      if id in StrippedIds(lines[1..]) {
        var i :| 0 <= i < |lines[1..]| && Strip(lines[1..][i]) == id;
        assert Strip(lines[i + 1]) == id;
      }
    }
  }

  /**
   * The loaded set holds exactly the stripped forms of the lines that are
   * not blank, and nothing else.
   */
  lemma LoadFidsMembership(lines: seq<string>, id: string)
    ensures id in LoadFids(lines) <==> id != [] && exists i :: 0 <= i < |lines| && Strip(lines[i]) == id
  {
    StrippedIdsMembership(lines, id);
  }

  /** Every loaded FID is non-empty and has no surrounding whitespace left to strip. */
  lemma LoadFidsStripped(lines: seq<string>, id: string)
    requires id in LoadFids(lines)
    ensures id != [] && Strip(id) == id
  {
    LoadFidsMembership(lines, id);
    var i :| 0 <= i < |lines| && Strip(lines[i]) == id;
    StripIdempotent(lines[i]);
  }

  lemma {:induction false} StrippedIdsConcat(a: seq<string>, b: seq<string>)
    ensures StrippedIds(a + b) == StrippedIds(a) + StrippedIds(b)
  {
    if a == [] {
      assert a + b == b;
    } else {
      var head := if Strip(a[0]) != [] then [Strip(a[0])] else [];
      assert (a + b)[0] == a[0] && (a + b)[1..] == a[1..] + b;
      StrippedIdsConcat(a[1..], b);
      calc {
        StrippedIds(a + b);
        head + StrippedIds(a[1..] + b);
        head + (StrippedIds(a[1..]) + StrippedIds(b));
        (head + StrippedIds(a[1..])) + StrippedIds(b);
      }
    }
  }

  /**
   * The order of the lines and repeated lines do not matter: loading a
   * file made of two parts gives the union of loading each part.
   */
  lemma LoadFidsConcat(a: seq<string>, b: seq<string>)
    ensures LoadFids(a + b) == LoadFids(a) + LoadFids(b)
  {
    StrippedIdsConcat(a, b);
  }
}
