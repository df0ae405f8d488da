/** The string operations the movie loader applies to each line: splitting on
    "::", Python slicing, str.strip, substring containment and pd.to_numeric. */
module Text {
  import opened Wrappers

  /** The field delimiter of a movie line. */
  const Sep: string := "::"

  /** A delimiter starts at position i of s. */
  predicate SepAt(s: string, i: int)
  {
    0 <= i < |s| - 1 && s[i] == ':' && s[i + 1] == ':'
  }

  ghost predicate HasSep(s: string)
  {
    exists i :: SepAt(s, i)
  }

  /** A field that is read back as itself when a delimiter follows it: it holds
      no delimiter and does not end in ':' (which would move the cut one left). */
  ghost predicate CleanField(s: string)
  {
    !HasSep(s) && (s == [] || s[|s| - 1] != ':')
  }

  /** str.split("::"): scans from the left and cuts at every non-overlapping
      occurrence of the delimiter; the result has at least one field. */
  function Split(s: string): (fields: seq<string>)
    ensures |fields| >= 1
    ensures JoinFields(fields) == s
    decreases |s|
  {
    if |s| < 2 then [s]
    else if SepAt(s, 0) then
      var rest := Split(s[2..]);
      assert ([""] + rest)[1..] == rest;
      assert s == Sep + s[2..];
      [""] + rest
    else
      var rest := Split(s[1..]);
      JoinPrepend(s[0], rest);
      assert s == [s[0]] + s[1..];
      [[s[0]] + rest[0]] + rest[1..]
  }

  /** "::".join(fields). */
  function JoinFields(fields: seq<string>): string
    requires |fields| >= 1
  {
    if |fields| == 1 then fields[0] else fields[0] + Sep + JoinFields(fields[1..])
  }

  /** Prepending a character to the first field prepends it to the joined line. */
  lemma {:induction false} JoinPrepend(c: char, fields: seq<string>)
    requires |fields| >= 1
    ensures JoinFields([[c] + fields[0]] + fields[1..]) == [c] + JoinFields(fields)
  {
    var fields' := [[c] + fields[0]] + fields[1..];
    if |fields| > 1 {
      assert fields'[1..] == fields[1..];
      var tail := JoinFields(fields[1..]);
      assert JoinFields(fields') == ([c] + fields[0]) + Sep + tail;
      assert JoinFields(fields) == fields[0] + Sep + tail;
      assert ([c] + fields[0]) + Sep + tail == [c] + (fields[0] + Sep + tail);
    }
  }

  /** The first field is a prefix of the joined line; when more fields follow,
      the delimiter comes right after it. */
  lemma FirstFieldPrefix(fields: seq<string>)
    requires |fields| >= 1
    ensures |fields[0]| <= |JoinFields(fields)|
    ensures JoinFields(fields)[..|fields[0]|] == fields[0]
    ensures |fields| > 1 ==> |fields[0]| + 2 <= |JoinFields(fields)| && JoinFields(fields)[|fields[0]|] == ':'
    ensures |fields| > 1 ==> JoinFields(fields)[|fields[0]|..|fields[0]| + 2] == Sep
  {
    if |fields| > 1 {
      assert JoinFields(fields) == fields[0] + (Sep + JoinFields(fields[1..]));
    }
  }

  /** A character put before a text without delimiter creates none unless both
      it and the text's first character are ':'. */
  lemma NoSepPrepend(c: char, t: string)
    requires !HasSep(t)
    requires c != ':' || t == [] || t[0] != ':'
    ensures !HasSep([c] + t)
  {
    var u := [c] + t;
    forall i | 0 < i < |u| - 1 ensures !SepAt(u, i) {
      assert u[i] == t[i - 1] && u[i + 1] == t[i];
      assert !SepAt(t, i - 1);
    }
  }

  /** Every field but the last is clean and the last holds no delimiter. */
  lemma {:induction false} SplitFieldsClean(s: string)
    ensures forall k :: 0 <= k < |Split(s)| - 1 ==> CleanField(Split(s)[k])
    ensures !HasSep(Split(s)[|Split(s)| - 1])
    decreases |s|
  {
    var fields := Split(s);
    if |s| < 2 {
      assert fields == [s];
      assert !HasSep(s);
    } else if SepAt(s, 0) {
      var rest := Split(s[2..]);
      SplitFieldsClean(s[2..]);
      assert fields == [""] + rest;
      assert !HasSep("");
      forall k | 0 <= k < |fields| - 1 ensures CleanField(fields[k]) {
        if k > 0 { assert fields[k] == rest[k - 1]; }
      }
      assert fields[|fields| - 1] == rest[|rest| - 1];
    } else {
      SplitFieldsClean(s[1..]);
      SplitFieldsCleanCons(s);
    }
  }

  /** The step of SplitFieldsClean where the line does not start with the
      delimiter, so its first character joins the first field of the tail. */
  lemma SplitFieldsCleanCons(s: string)
    requires |s| >= 2 && !SepAt(s, 0)
    requires forall k :: 0 <= k < |Split(s[1..])| - 1 ==> CleanField(Split(s[1..])[k])
    requires !HasSep(Split(s[1..])[|Split(s[1..])| - 1])
    ensures forall k :: 0 <= k < |Split(s)| - 1 ==> CleanField(Split(s)[k])
    ensures !HasSep(Split(s)[|Split(s)| - 1])
  {
    var fields := Split(s);
    var rest := Split(s[1..]);
    FirstFieldPrefix(rest);
    var head := [s[0]] + rest[0];
    assert fields == [head] + rest[1..];
    assert !HasSep(rest[0]);
    assert rest[0] != [] ==> rest[0][0] == s[1];
    NoSepPrepend(s[0], rest[0]);
    if |rest| > 1 {
      assert CleanField(rest[0]);
      assert rest[0] == [] ==> s[1] == ':';
      assert CleanField(head);
      forall k | 0 <= k < |fields| - 1 ensures CleanField(fields[k]) {
        if k > 0 { assert fields[k] == rest[k]; }
      }
      assert fields[|fields| - 1] == rest[|rest| - 1];
    } else {
      assert fields == [head];
    }
  }

  /** A line with no delimiter is a single field. */
  lemma {:induction false} SplitNoSep(s: string)
    requires !HasSep(s)
    ensures Split(s) == [s]
    decreases |s|
  {
    if |s| >= 2 {
      assert !SepAt(s, 0);
      assert !HasSep(s[1..]) by {
        forall i | SepAt(s[1..], i) ensures SepAt(s, i + 1) {}
      }
      SplitNoSep(s[1..]);
      assert [s[0]] + s[1..] == s;
    }
  }

  /** A text without ':' holds no delimiter. */
  lemma NoColonNoSep(s: string)
    requires forall i :: 0 <= i < |s| ==> s[i] != ':'
    ensures !HasSep(s)
  {
    forall i | 0 <= i < |s| - 1 ensures !SepAt(s, i) {
      assert s[i] != ':';
    }
  }

  /** A clean field followed by the delimiter is cut off as the first field. */
  lemma {:induction false} SplitAfterField(a: string, b: string)
    requires CleanField(a)
    ensures Split(a + Sep + b) == [a] + Split(b)
    decreases |a|
  {
    var s := a + Sep + b;
    if a == [] {
      assert s == Sep + b;
      assert SepAt(s, 0);
      assert s[2..] == b;
    } else {
      assert !SepAt(s, 0) by {
        if |a| == 1 {
          assert s[0] == a[0];
        } else {
          assert !SepAt(a, 0);
        }
      }
      var a' := a[1..];
      assert CleanField(a') by {
        forall i | SepAt(a', i) ensures SepAt(a, i + 1) {}
      }
      SplitAfterField(a', b);
      assert s[1..] == a' + Sep + b;
      assert [s[0]] + a' == a;
    }
  }

  /** Splitting a join of clean fields gives back the fields: with the
      contract of Split, Split and JoinFields are inverse to each other. */
  lemma {:induction false} SplitJoin(fields: seq<string>)
    requires |fields| >= 1
    requires forall k :: 0 <= k < |fields| - 1 ==> CleanField(fields[k])
    requires !HasSep(fields[|fields| - 1])
    ensures Split(JoinFields(fields)) == fields
    decreases |fields|
  {
    if |fields| == 1 {
      SplitNoSep(fields[0]);
    } else {
      SplitJoin(fields[1..]);
      SplitAfterField(fields[0], JoinFields(fields[1..]));
    }
  }

  // ----- Python slicing of a title -----

  /** s[-k:]: the last k characters, or all of s when it is shorter. */
  function LastChars(s: string, k: nat): (r: string)
    ensures |r| == if |s| <= k then |s| else k
    ensures r == s[|s| - |r|..]
  {
    if |s| <= k then s else s[|s| - k..]
  }

  /** s[:-k]: everything but the last k characters; the two slices put
      together give back s. */
  function DropLastChars(s: string, k: nat): (r: string)
    ensures r + LastChars(s, k) == s
    ensures |r| == if |s| <= k then 0 else |s| - k
  {
    if |s| <= k then "" else s[..|s| - k]
  }

  // ----- str.strip with a one-character argument -----

  /** s.lstrip(c): drops the longest run of c at the front. */
  function StripLeft(s: string, c: char): (r: string)
    ensures |r| <= |s| && r == s[|s| - |r|..]
    ensures forall i :: 0 <= i < |s| - |r| ==> s[i] == c
    ensures r == [] || r[0] != c
    decreases |s|
  {
    if |s| > 0 && s[0] == c then StripLeft(s[1..], c) else s
  }

  /** s.rstrip(c): drops the longest run of c at the back. */
  function StripRight(s: string, c: char): (r: string)
    ensures |r| <= |s| && r == s[..|r|]
    ensures forall i :: |r| <= i < |s| ==> s[i] == c
    ensures r == [] || r[|r| - 1] != c
    decreases |s|
  {
    if |s| > 0 && s[|s| - 1] == c then StripRight(s[..|s| - 1], c) else s
  }

  /** s is r with runs of c around it, and r neither starts nor ends with c. */
  ghost predicate StripsTo(s: string, c: char, r: string)
  {
    && (r == [] || (r[0] != c && r[|r| - 1] != c))
    && exists front: nat, back: nat :: s == Repeat(c, front) + r + Repeat(c, back)
  }

  /** s.strip(c): drops the runs of c at both ends. */
  function Strip(s: string, c: char): (r: string)
    ensures |r| <= |s|
    ensures r == [] || (r[0] != c && r[|r| - 1] != c)
    ensures Contains(s, r)
    ensures StripsTo(s, c, r)
  {
    var left := StripLeft(s, c);
    var r := StripRight(left, c);
    assert OccursAt(r, s, |s| - |left|) by {
      assert s[|s| - |left|..][..|r|] == r;
    }
    StripParts(s, c, left, r);
    r
  }

  /** The runs that lstrip and rstrip take off, put back around the result,
      give s. */
  lemma {:induction false} StripParts(s: string, c: char, left: string, r: string)
    requires left == StripLeft(s, c) && r == StripRight(left, c)
    ensures s == Repeat(c, |s| - |left|) + r + Repeat(c, |left| - |r|)
  {
    RunThenRest(s, left, c);
    RestThenRun(left, r, c);
    assert s == Repeat(c, |s| - |left|) + (r + Repeat(c, |left| - |r|));
  }

  /** A text that is a run of c followed by its end t. */
  lemma {:induction false} RunThenRest(s: string, t: string, c: char)
    requires |t| <= |s| && t == s[|s| - |t|..]
    requires forall i :: 0 <= i < |s| - |t| ==> s[i] == c
    ensures s == Repeat(c, |s| - |t|) + t
  {
    assert s[..|s| - |t|] == Repeat(c, |s| - |t|);
    assert s == s[..|s| - |t|] + s[|s| - |t|..];
  }

  /** A text that is its start t followed by a run of c. */
  lemma {:induction false} RestThenRun(s: string, t: string, c: char)
    requires |t| <= |s| && t == s[..|t|]
    requires forall i :: |t| <= i < |s| ==> s[i] == c
    ensures s == t + Repeat(c, |s| - |t|)
  {
    assert s[|t|..] == Repeat(c, |s| - |t|);
    assert s == s[..|t|] + s[|t|..];
  }

  /** The shape Strip ensures has one text only: any r with that shape is
      the strip of s. */
  lemma StripsToStrip(s: string, c: char, r: string)
    requires StripsTo(s, c, r)
    ensures r == Strip(s, c)
  {
    var front: nat, back: nat :| s == Repeat(c, front) + r + Repeat(c, back);
    StripRuns(c, front, r, back);
  }

  /** A character other than c survives stripping c. */
  lemma {:induction false} StripKeeps(s: string, c: char, x: char)
    requires x in s && x != c
    ensures x in Strip(s, c)
  {
    StripLeftKeeps(s, c, x);
    StripRightKeeps(StripLeft(s, c), c, x);
  }

  lemma {:induction false} StripLeftKeeps(s: string, c: char, x: char)
    requires x in s && x != c
    ensures x in StripLeft(s, c)
  {
    var r := StripLeft(s, c);
    var p :| 0 <= p < |s| && s[p] == x;
    var d := |s| - |r|;
    assert p >= d;
    assert r[p - d] == s[p];
  }

  lemma {:induction false} StripRightKeeps(s: string, c: char, x: char)
    requires x in s && x != c
    ensures x in StripRight(s, c)
  {
    var r := StripRight(s, c);
    var p :| 0 <= p < |s| && s[p] == x;
    assert p < |r|;
    assert r[p] == s[p];
  }

  /** A text holding a character that is neither a digit nor a sign is not
      a number. */
  lemma {:induction false} NotIntText(s: string, x: char)
    requires x in s && !IsDigit(x) && x != '+' && x != '-'
    ensures !IsIntText(s)
  {
    var p :| 0 <= p < |s| && s[p] == x;
    if |s| > 0 && (s[0] == '+' || s[0] == '-') {
      assert p > 0;
      assert s[1..][p - 1] == x;
    }
  }

  /** n copies of c. */
  function Repeat(c: char, n: nat): (r: string)
    ensures |r| == n && forall i :: 0 <= i < n ==> r[i] == c
  {
    if n == 0 then "" else [c] + Repeat(c, n - 1)
  }

  /** Strip takes off exactly the runs of c around a text that neither starts
      nor ends with c, and nothing of that text. */
  lemma {:induction false} StripRuns(c: char, front: nat, mid: string, back: nat)
    requires mid == [] || (mid[0] != c && mid[|mid| - 1] != c)
    ensures Strip(Repeat(c, front) + mid + Repeat(c, back), c) == mid
  {
    if mid == [] {
      RepeatAdd(c, front, back);
      assert Repeat(c, front) + mid + Repeat(c, back) == Repeat(c, front + back) + [];
      StripLeftRun(c, front + back, []);
    } else {
      StripLeftRun(c, front, mid + Repeat(c, back));
      assert Repeat(c, front) + mid + Repeat(c, back) == Repeat(c, front) + (mid + Repeat(c, back));
      StripRightRun(c, mid, back);
    }
  }

  lemma {:induction false} RepeatAdd(c: char, m: nat, n: nat)
    ensures Repeat(c, m) + Repeat(c, n) == Repeat(c, m + n)
  {
  }

  lemma {:induction false} StripLeftRun(c: char, n: nat, t: string)
    requires t == [] || t[0] != c
    ensures StripLeft(Repeat(c, n) + t, c) == t
    decreases n
  {
    if n > 0 {
      assert (Repeat(c, n) + t)[1..] == Repeat(c, n - 1) + t;
      StripLeftRun(c, n - 1, t);
    }
  }

  lemma {:induction false} StripRightRun(c: char, t: string, n: nat)
    requires t == [] || t[|t| - 1] != c
    requires t == [] || t[0] != c
    ensures StripRight(t + Repeat(c, n), c) == t
    decreases n
  {
    if n > 0 {
      var u := t + Repeat(c, n);
      assert Repeat(c, n) == Repeat(c, n - 1) + [c] by {
        RepeatSnoc(c, n);
      }
      assert u[..|u| - 1] == t + Repeat(c, n - 1);
      StripRightRun(c, t, n - 1);
    } else {
      assert t + Repeat(c, 0) == t;
    }
  }

  lemma {:induction false} RepeatSnoc(c: char, n: nat)
    requires n > 0
    ensures Repeat(c, n) == Repeat(c, n - 1) + [c]
  {
  }

  // ----- substring containment -----

  /** pat occurs in s starting at position i. */
  ghost predicate OccursAt(pat: string, s: string, i: int)
  {
    0 <= i && i + |pat| <= |s| && s[i..i + |pat|] == pat
  }

  ghost predicate Contains(s: string, pat: string)
  {
    exists i :: OccursAt(pat, s, i)
  }

  /** The substring search that Series.str.contains performs for a pattern
      free of regular-expression metacharacters: true exactly when the
      pattern occurs at some position of the text. */
  function Occurs(pat: string, s: string): (b: bool)
    ensures b <==> Contains(s, pat)
    decreases |s|
  {
    if |pat| > |s| then
      assert forall i :: !OccursAt(pat, s, i);
      false
    else if s[..|pat|] == pat then
      assert OccursAt(pat, s, 0);
      true
    else
      ContainsStep(pat, s);
      Occurs(pat, s[1..])
  }

  /** When the pattern does not start the text, it occurs in the text exactly
      when it occurs in the text's tail. */
  lemma ContainsStep(pat: string, s: string)
    requires |pat| <= |s| && s[..|pat|] != pat
    ensures Contains(s, pat) <==> Contains(s[1..], pat)
  {
    if Contains(s[1..], pat) {
      var i :| OccursAt(pat, s[1..], i);
      assert s[1..][i..i + |pat|] == s[i + 1..i + 1 + |pat|];
      assert OccursAt(pat, s, i + 1);
    }
    if Contains(s, pat) {
      var i :| OccursAt(pat, s, i);
      assert i != 0;
      assert s[1..][i - 1..i - 1 + |pat|] == s[i..i + |pat|];
      assert OccursAt(pat, s[1..], i - 1);
    }
  }

  /** A piece of a piece of a text is a piece of the text. */
  lemma ContainsTrans(s: string, t: string, u: string)
    requires Contains(s, t) && Contains(t, u)
    ensures Contains(s, u)
  {
    var i :| OccursAt(t, s, i);
    var j :| OccursAt(u, t, j);
    assert forall k :: 0 <= k < |u| ==> u[k] == t[j + k] == s[i + j + k];
    assert s[i + j..i + j + |u|] == u;
    assert OccursAt(u, s, i + j);
  }

  // ----- pd.to_numeric on a text -----

  predicate IsDigit(ch: char)
  {
    '0' <= ch <= '9'
  }

  predicate AllDigits(s: string)
  {
    forall i :: 0 <= i < |s| ==> IsDigit(s[i])
  }

  /** The value of a run of decimal digits. */
  function DigitsValue(s: string): nat
    requires AllDigits(s)
    decreases |s|
  {
    if s == [] then 0 else DigitsValue(s[..|s| - 1]) * 10 + (s[|s| - 1] as int - '0' as int)
  }

  /** An optional sign followed by at least one decimal digit. */
  predicate IsIntText(s: string)
  {
    if |s| > 0 && (s[0] == '+' || s[0] == '-') then |s| >= 2 && AllDigits(s[1..])
    else |s| >= 1 && AllDigits(s)
  }

  function IntValue(s: string): int
    requires IsIntText(s)
  {
    if s[0] == '-' then -(DigitsValue(s[1..]) as int)
    else if s[0] == '+' then DigitsValue(s[1..])
    else DigitsValue(s)
  }

  /** What pd.to_numeric (errors='raise') makes of one cell: a missing cell or
      an empty text is NaN, a number text is that number, anything else stops
      the conversion. */
  datatype Numeric = Missing | Number(value: int) | NotNumeric

  function ToNumeric(cell: Option<string>): (r: Numeric)
    ensures r.Missing? <==> cell == None || cell == Some("")
    ensures r.Number? ==> cell.Some? && IsIntText(cell.value) && r.value == IntValue(cell.value)
    ensures r.NotNumeric? <==> cell.Some? && cell.value != "" && !IsIntText(cell.value)
  {
    match cell
    case None => Missing
    case Some(t) =>
      if t == "" then Missing
      else if IsIntText(t) then Number(IntValue(t))
      else NotNumeric
  }

  /** str(n) for a natural number: decimal digits without leading zeros. */
  function NatText(n: nat): (r: string)
    ensures |r| >= 1 && AllDigits(r)
  {
    if n < 10 then [('0' as int + n) as char]
    else NatText(n / 10) + [('0' as int + n % 10) as char]
  }

  /** str(n) for an integer. */
  function IntText(n: int): string
  {
    if n < 0 then "-" + NatText(-n) else NatText(n)
  }

  lemma {:induction false} DigitsOfNatText(n: nat)
    ensures DigitsValue(NatText(n)) == n
    decreases n
  {
    if n >= 10 {
      DigitsOfNatText(n / 10);
      var t := NatText(n);
      assert t[..|t| - 1] == NatText(n / 10);
    }
  }

  /** Reading back the text of a number gives the number. */
  lemma {:induction false} NumberRoundTrip(n: int)
    ensures ToNumeric(Some(IntText(n))) == Number(n)
  {
    if n < 0 {
      var d := NatText(-n);
      var t := IntText(n);
      assert t == "-" + d;
      assert t[1..] == d;
      DigitsOfNatText(-n);
      assert IsIntText(t);
      assert IntValue(t) == -(DigitsValue(d) as int);
    } else {
      var d := NatText(n);
      DigitsOfNatText(n);
      assert IsDigit(d[0]);
      assert IsIntText(d);
    }
  }
}
