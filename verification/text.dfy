/**
 String helpers used by the command-line driver of IfcExtract: ASCII lower-casing
 (what boost::algorithm::to_lower_copy does in the classic locale) and a model of
 std::string::find, whose "not found" answer is std::string::npos.
 */
module Text {

  /**
   A position in a string, or none. It is the answer of std::string::find, where
   NotFound stands for npos, and also the place of the last level flag on a command
   line, where NotFound means there is none.
   */
  datatype Position = At(index: nat) | NotFound

  /** Lower-cases one character in the classic locale: only 'A'..'Z' change. */
  function LowerChar(c: char): char
  {
    if 'A' <= c <= 'Z' then (c as int - 'A' as int + 'a' as int) as char else c
  }

  /** Lower-cases every character of `s`, keeping its length. */
  function ToLower(s: string): (r: string)
    ensures |r| == |s|
    ensures forall i :: 0 <= i < |s| ==> r[i] == LowerChar(s[i])
  {
    seq(|s|, i requires 0 <= i < |s| => LowerChar(s[i]))
  }

  /** `pat` occurs in `s` starting at position `i`. */
  predicate OccursAt(pat: string, s: string, i: int)
  {
    0 <= i && i + |pat| <= |s| && s[i..i + |pat|] == pat
  }

  /** `pat` occurs somewhere in `s`. */
  predicate Contains(s: string, pat: string)
  {
    exists i :: 0 <= i <= |s| && OccursAt(pat, s, i)
  }

  /** std::string::find(pat, from): the first occurrence of `pat` at or after `from`. */
  function Find(s: string, pat: string, from: nat): (r: Position)
    ensures r.At? ==> from <= r.index && OccursAt(pat, s, r.index)
    ensures r.At? ==> forall j :: from <= j < r.index ==> !OccursAt(pat, s, j)
    ensures r.NotFound? ==> forall j :: from <= j ==> !OccursAt(pat, s, j)
    decreases |s| - from
  {
    if from + |pat| > |s| then NotFound
    else if s[from..from + |pat|] == pat then At(from)
    else Find(s, pat, from + 1)
  }

  /** Searching from the start answers npos exactly when `pat` does not occur at all. */
  lemma FindFromStart(s: string, pat: string)
    ensures Find(s, pat, 0).NotFound? <==> !Contains(s, pat)
  {
    if Find(s, pat, 0).At? {
      assert OccursAt(pat, s, Find(s, pat, 0).index);
    }
  }

  /** `s` has the four characters ".ifc", in any letter case, starting at `i`. */
  predicate IfcMarkAt(s: string, i: int)
  {
    && 0 <= i && i + 4 <= |s|
    && s[i] == '.'
    && (s[i + 1] == 'i' || s[i + 1] == 'I')
    && (s[i + 2] == 'f' || s[i + 2] == 'F')
    && (s[i + 3] == 'c' || s[i + 3] == 'C')
  }

  /** ".ifc", in any letter case, occurs somewhere in `s`. */
  predicate HasIfcMark(s: string)
  {
    exists i :: 0 <= i < |s| && IfcMarkAt(s, i)
  }

  lemma LowerCharIs(c: char, d: char)
    requires 'a' <= d <= 'z'
    ensures LowerChar(c) == d <==> c == d || c as int == d as int - 'a' as int + 'A' as int
  {
  }

  /** Lower-casing then matching ".ifc" at `i` is matching ".ifc" case-insensitively there. */
  lemma LowerOccursAt(s: string, i: int)
    ensures OccursAt(".ifc", ToLower(s), i) <==> IfcMarkAt(s, i)
  {
    var t := ToLower(s);
    if 0 <= i && i + 4 <= |s| {
      LowerCharIs(s[i + 1], 'i');
      LowerCharIs(s[i + 2], 'f');
      LowerCharIs(s[i + 3], 'c');
      if IfcMarkAt(s, i) {
        assert t[i..i + 4] == ".ifc";
      }
      if OccursAt(".ifc", t, i) {
        assert t[i..i + 4][0] == '.' && t[i..i + 4][1] == 'i';
        assert t[i..i + 4][2] == 'f' && t[i..i + 4][3] == 'c';
      }
    }
  }

  /**
   The extension test of the driver, `to_lower_copy(argument).find(".ifc") != npos`,
   is case-insensitive containment: it holds exactly when ".ifc", in any mix of
   cases, occurs anywhere in the argument (not only at its end).
   */
  lemma LowerFindIff(s: string)
    ensures Find(ToLower(s), ".ifc", 0).At? <==> HasIfcMark(s)
  {
    FindFromStart(ToLower(s), ".ifc");
    if Find(ToLower(s), ".ifc", 0).At? {
      var i :| 0 <= i <= |s| && OccursAt(".ifc", ToLower(s), i);
      LowerOccursAt(s, i);
    }
    if HasIfcMark(s) {
      var i :| 0 <= i < |s| && IfcMarkAt(s, i);
      LowerOccursAt(s, i);
    }
  }

  /** An argument that passes the extension test has at least four characters. */
  lemma HasIfcMarkLength(s: string)
    ensures HasIfcMark(s) ==> |s| >= 4
  {
  }
}
