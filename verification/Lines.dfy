/** Text as lines: every carriage return and every line feed ends one. */
module Lines {

  predicate IsEol(c: char) {
    c == '\n' || c == '\r'
  }

  // The lines of a text, the last one being what follows the last terminator (possibly nothing).
  function Split(s: string): (lines: seq<string>)
    ensures lines != []
  {
    if s == [] then [""]
    else
      var front := Split(s[..|s| - 1]);
      var c := s[|s| - 1];
      if IsEol(c) then front + [""]
      else front[..|front| - 1] + [front[|front| - 1] + [c]]
  }

  lemma SplitSnoc(s: string, c: char)
    ensures Split(s + [c]) == var front := Split(s);
                              if IsEol(c) then front + [""] else front[..|front| - 1] + [front[|front| - 1] + [c]]
  {
    assert (s + [c])[..|s|] == s;
  }

  // Bytes taken by lines that all end with a one-byte terminator.
  function Extent(lines: seq<string>): nat {
    if lines == [] then 0 else Extent(lines[..|lines| - 1]) + |lines[|lines| - 1]| + 1
  }

  // The last line has no terminator.
  lemma {:induction false} SplitExtent(s: string)
    ensures Extent(Split(s)) == |s| + 1
  {
    if s != [] {
      SplitExtent(s[..|s| - 1]);
      var front := Split(s[..|s| - 1]);
      assert Split(s)[..|Split(s)| - 1] == if IsEol(s[|s| - 1]) then front else front[..|front| - 1];
    }
  }
}
