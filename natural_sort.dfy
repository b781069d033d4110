/** The natural-sort key of `sort_files_by_name` in video_merger.py: the
    base name cut by `re.split('(\d+)', name)` into text and digit runs,
    each digit run read as a number and each text run lower-cased, and the
    list sorted by comparing those keys as Python compares lists. */
module NaturalSort {
  import opened Text
  import opened Paths
  import opened Sorting

  predicate NoDigits(s: string)
  {
    forall i :: 0 <= i < |s| ==> !IsDigit(s[i])
  }

  /** The length of the longest prefix of `s` without a digit. */
  function TextRun(s: string): (k: nat)
    ensures k <= |s| && NoDigits(s[..k])
    ensures k < |s| ==> IsDigit(s[k])
  {
    if s == [] || IsDigit(s[0]) then 0
    else
      var k := 1 + TextRun(s[1..]);
      assert s[..k] == [s[0]] + s[1..][..k - 1];
      k
  }

  /** The length of the longest prefix of `s` made of digits. */
  function DigitRun(s: string): (k: nat)
    ensures k <= |s| && AllDigits(s[..k])
    ensures k < |s| ==> !IsDigit(s[k])
  {
    if s == [] || !IsDigit(s[0]) then 0
    else
      var k := 1 + DigitRun(s[1..]);
      assert s[..k] == [s[0]] + s[1..][..k - 1];
      k
  }

  /** The shape of what `re.split('(\d+)', s)` returns: text runs at the
      even positions, non-empty digit runs at the odd positions, and the
      text runs inside the list (all but the first and the last) non-empty,
      because the digit runs are maximal. */
  predicate Alternating(parts: seq<string>)
  {
    && |parts| % 2 == 1
    && (forall i :: 0 <= i < |parts| && i % 2 == 0 ==> NoDigits(parts[i]))
    && (forall i :: 0 <= i < |parts| && i % 2 == 1 ==> parts[i] != [] && AllDigits(parts[i]))
    && (forall i :: 0 < i < |parts| - 1 && i % 2 == 0 ==> parts[i] != [])
  }

  lemma AlternatingCons(t: string, d: string, rest: seq<string>)
    requires NoDigits(t) && d != [] && AllDigits(d)
    requires Alternating(rest) && (|rest| > 1 ==> rest[0] != [])
    ensures Alternating([t, d] + rest)
  {
    var parts := [t, d] + rest;
    forall i | 2 <= i < |parts| ensures parts[i] == rest[i - 2] {
    }
  }

  lemma ConcatCons(t: string, d: string, rest: seq<string>)
    ensures Concat([t, d] + rest) == t + d + Concat(rest)
  {
    var parts := [t, d] + rest;
    assert parts[1..][1..] == rest;
  }

  /** One cut of `re.split`: the text run `s[..k]`, the digit run after
      it and the split of the rest make up a split of `s`. */
  lemma SplitDigitsCut(s: string, k: nat, d: nat, rest: seq<string>)
    requires k < |s| && NoDigits(s[..k]) && IsDigit(s[k])
    requires k + d <= |s| && AllDigits(s[k..][..d]) && (k + d < |s| ==> !IsDigit(s[k..][d]))
    requires Alternating(rest) && Concat(rest) == s[k + d..]
    requires k + d < |s| ==> rest[0] != []
    requires k + d == |s| ==> rest == [""]
    ensures d > 0 && s[k..][..d] == s[k..k + d]
    ensures Alternating([s[..k], s[k..k + d]] + rest)
    ensures !IsDigit(s[0]) ==> s[..k] != []
    ensures Concat([s[..k], s[k..k + d]] + rest) == s
  {
    assert d > 0 by {
      assert s[k..][0] == s[k];
    }
    assert s[k..][..d] == s[k..k + d];
    AlternatingCons(s[..k], s[k..k + d], rest);
    ConcatCons(s[..k], s[k..k + d], rest);
    assert s == s[..k] + s[k..k + d] + s[k + d..];
  }

  /** `re.split('(\d+)', s)`: the pieces alternate as `Alternating` says
      and, joined up, give `s` back; a string that does not start with a
      digit has a non-empty first piece, and the empty string is one empty
      piece. */
  function SplitDigits(s: string): (parts: seq<string>)
    ensures Alternating(parts)
    ensures s != [] && !IsDigit(s[0]) ==> parts[0] != []
    ensures s == [] ==> parts == [""]
    ensures Concat(parts) == s
    decreases |s|
  {
    var k := TextRun(s);
    if k == |s| then
      assert s[..k] == s;
      [s]
    else
      var d := DigitRun(s[k..]);
      var rest := SplitDigits(s[k + d..]);
      SplitDigitsCut(s, k, d, rest);
      [s[..k], s[k..k + d]] + rest
  }

  /** One element of the key: a number or a lower-cased word. */
  datatype KeyPart = Word(w: string) | Number(n: nat)

  /** `int(text) if text.isdigit() else text.lower()` */
  function Part(text: string): KeyPart
  {
    if text != [] && AllDigits(text) then Number(ParseNat(text)) else Word(Lower(text))
  }

  /** `natural_sort_key(path)` */
  function NaturalKey(path: string): seq<KeyPart>
  {
    var parts := SplitDigits(Basename(path));
    seq(|parts|, i requires 0 <= i < |parts| => Part(parts[i]))
  }

  /** The key alternates words and numbers, starting and ending with a
      word, so two keys never put a number against a word at the same
      position: the comparison Python makes never mixes `int` and `str`. */
  lemma NaturalKeyAlternates(path: string)
    ensures |NaturalKey(path)| % 2 == 1
    ensures forall i :: 0 <= i < |NaturalKey(path)| ==> (NaturalKey(path)[i].Number? <==> i % 2 == 1)
  {
    var parts := SplitDigits(Basename(path));
    forall i | 0 <= i < |parts| && i % 2 == 0 ensures Part(parts[i]).Word? {
      if parts[i] != [] {
        assert !IsDigit(parts[i][0]);
      }
    }
  }

  lemma KeysAlign(a: string, b: string, i: nat)
    requires i < |NaturalKey(a)| && i < |NaturalKey(b)|
    ensures NaturalKey(a)[i].Number? == NaturalKey(b)[i].Number?
  {
    NaturalKeyAlternates(a);
    NaturalKeyAlternates(b);
  }

  /** Python's `<` on the elements of two keys. Numbers compare as numbers
      and words as strings; a word is put before a number only to make the
      order total, a case `KeysAlign` shows never arises. */
  predicate PartLt(a: KeyPart, b: KeyPart)
  {
    match (a, b)
    case (Number(x), Number(y)) => x < y
    case (Word(x), Word(y)) => StringLe(x, y) && x != y
    case (Word(_), Number(_)) => true
    case (Number(_), Word(_)) => false
  }

  lemma PartLtStrictTotalOrder()
    ensures StrictTotalOrder(PartLt)
  {
    assert StrictTotalOrder(CharLt);
    forall a: KeyPart, b: KeyPart | a != b ensures PartLt(a, b) || PartLt(b, a) {
      if a.Word? && b.Word? {
        LexLeTotal(a.w, b.w, CharLt);
      }
    }
    forall a: KeyPart, b: KeyPart, c: KeyPart | PartLt(a, b) && PartLt(b, c) ensures PartLt(a, c) {
      if a.Word? && b.Word? && c.Word? {
        LexLeTransitive(a.w, b.w, c.w, CharLt);
        if a.w == c.w {
          LexLeAntisymmetric(a.w, b.w, CharLt);
        }
      }
    }
  }

  /** Python's `<=` on two keys. */
  predicate NameLe(a: seq<KeyPart>, b: seq<KeyPart>)
  {
    LexLe(a, b, PartLt)
  }

  lemma NameLeTotalPreorder()
    ensures TotalPreorder(NameLe)
  {
    PartLtStrictTotalOrder();
    forall a, b ensures NameLe(a, b) || NameLe(b, a) {
      LexLeTotal(a, b, PartLt);
    }
    forall a, b, c | NameLe(a, b) && NameLe(b, c) ensures NameLe(a, c) {
      LexLeTransitive(a, b, c, PartLt);
    }
  }

  /** `files.sort(key=natural_sort_key)` */
  function SortedByName(files: seq<string>): (r: seq<string>)
    ensures |r| == |files|
  {
    SortByKey(files, NaturalKey, NameLe, false)
  }

  /** The sorted list is a reordering of the list. */
  lemma SortedByNamePermutation(files: seq<string>)
    ensures multiset(SortedByName(files)) == multiset(files)
  {
    SortByKeyPermutation(files, NaturalKey, NameLe, false);
  }

  /** The sorted list is in ascending order of the keys. */
  lemma SortedByNameOrdered(files: seq<string>)
    ensures var r := SortedByName(files);
      forall i, j :: 0 <= i < j < |r| ==> NameLe(NaturalKey(r[i]), NaturalKey(r[j]))
  {
    NameLeTotalPreorder();
    SortByKeySorted(files, NaturalKey, NameLe, false);
  }

  /** Files whose keys are equal (such as "a01" and "a1") keep their order. */
  lemma SortedByNameStable(files: seq<string>, k: seq<KeyPart>)
    ensures WithKeyOf(SortedByName(files), NaturalKey, k) == WithKeyOf(files, NaturalKey, k)
  {
    NameLeTotalPreorder();
    SortByKeyStable(files, NaturalKey, NameLe, false, k);
  }

  /** A name made of a digit-free word and a number has the key
      [word, number, ""]. */
  lemma {:induction false} NumberedKey(t: string, m: nat)
    requires t != [] && NoDigits(t) && '/' !in t
    ensures NaturalKey(t + NatToString(m)) == [Word(Lower(t)), Number(m), Word("")]
  {
    var d := NatToString(m);
    var name := t + d;
    assert Basename(name) == name by {
      assert '/' !in name by {
        assert forall i :: 0 <= i < |d| ==> d[i] != '/';
      }
      SlashFree(name);
    }
    SplitNumbered(t, d);
    KeyOfThree(name, t, d, "");
    assert Part(t) == Word(Lower(t)) by {
      assert !IsDigit(t[0]);
    }
    assert Part(d) == Number(m) by {
      ParseNatToString(m);
    }
  }

  lemma KeyOfThree(path: string, a: string, b: string, c: string)
    requires SplitDigits(Basename(path)) == [a, b, c]
    ensures NaturalKey(path) == [Part(a), Part(b), Part(c)]
  {
  }

  /** A digit-free word followed by digits splits into the word, the
      digits and an empty last piece. */
  lemma SplitNumbered(t: string, d: string)
    requires t != [] && NoDigits(t) && d != [] && AllDigits(d)
    ensures SplitDigits(t + d) == [t, d, ""]
  {
    var name := t + d;
    var k := |t|;
    assert TextRun(name) == k by {
      TextRunPrefix(t, d);
    }
    assert DigitRun(name[k..]) == |d| by {
      assert name[k..] == d;
      DigitRunAll(d);
    }
    assert SplitDigits(name[k + |d|..]) == [""] by {
      assert name[k + |d|..] == [];
    }
    assert SplitDigits(name) == [name[..k], name[k..k + |d|]] + [""];
    assert name[..k] == t && name[k..k + |d|] == d;
  }

  lemma {:induction false} TextRunPrefix(t: string, d: string)
    requires NoDigits(t) && d != [] && IsDigit(d[0])
    ensures TextRun(t + d) == |t|
  {
    if t != [] {
      assert (t + d)[1..] == t[1..] + d;
      TextRunPrefix(t[1..], d);
    } else {
      assert t + d == d;
    }
  }

  lemma {:induction false} DigitRunAll(d: string)
    requires AllDigits(d)
    ensures DigitRun(d) == |d|
  {
    if d != [] {
      DigitRunAll(d[1..]);
    }
  }

  lemma NumberedKeysCompare(w: string, m: nat, n: nat)
    ensures NameLe([Word(w), Number(m), Word("")], [Word(w), Number(n), Word("")]) <==> m <= n
  {
    var a := [Word(w), Number(m), Word("")];
    var b := [Word(w), Number(n), Word("")];
    var a1, b1 := a[1..], b[1..];
    assert a1 == [Number(m), Word("")] && b1 == [Number(n), Word("")];
    assert NameLe(a, b) == LexLe(a1, b1, PartLt);
    if m == n {
      var c := a1[1..];
      assert c == [Word("")] == b1[1..];
      assert c[1..] == [];
      assert LexLe(c, c, PartLt);
      assert LexLe(a1, b1, PartLt) == LexLe(c, c, PartLt);
    } else {
      assert LexLe(a1, b1, PartLt) == PartLt(Number(m), Number(n));
    }
  }

  /** Numbered names after the same word sort by the value of the number,
      not by its digits: "clip9" comes before "clip10". */
  lemma NumbersByValue(t: string, m: nat, n: nat)
    requires t != [] && NoDigits(t) && '/' !in t
    ensures NameLe(NaturalKey(t + NatToString(m)), NaturalKey(t + NatToString(n))) <==> m <= n
  {
    NumberedKey(t, m);
    NumberedKey(t, n);
    NumberedKeysCompare(Lower(t), m, n);
  }
}
