/**
  The sanitiser `clean_text` that runs before text is handed to the PDF
  library. As written it first keeps only the characters whose code point is
  below 256, and only then applies four substitutions (en dash to hyphen,
  curly quotes to straight quotes). All four characters it substitutes lie
  above 255, so by the time the substitutions run there is nothing left for
  them to replace: the result is exactly the Latin-1 filter.
 */
module TextCleaning {
  import opened PyStrings

  const EnDash: char := '\U{2013}'
  const RightSingleQuote: char := '\U{2019}'
  const LeftDoubleQuote: char := '\U{201C}'
  const RightDoubleQuote: char := '\U{201D}'

  /** A character the PDF's single-byte (Latin-1) encoding can hold. */
  predicate IsLatin1(c: char)
  {
    c as int < 256
  }

  predicate AllLatin1(s: string)
  {
    forall i :: 0 <= i < |s| ==> IsLatin1(s[i])
  }

  /** `''.join(c for c in s if ord(c) < 256)`. */
  function KeepLatin1(s: string): (r: string)
    ensures |r| <= |s|
    ensures AllLatin1(r)
  {
    if s == [] then []
    else (if IsLatin1(s[0]) then [s[0]] else []) + KeepLatin1(s[1..])
  }

  /** `s.replace(target, with)` for a one-character target and replacement. */
  function Replace(s: string, target: char, with: char): (r: string)
    ensures |r| == |s|
    ensures forall i :: 0 <= i < |s| ==> r[i] == if s[i] == target then with else s[i]
  {
    if s == [] then []
    else [if s[0] == target then with else s[0]] + Replace(s[1..], target, with)
  }

  /** `clean_text(text)`, with the filter first and the substitutions after it, as written. */
  function CleanText(text: string): (r: string)
    ensures |r| <= |text|
    ensures AllLatin1(r)
  {
    Replace(Replace(Replace(Replace(KeepLatin1(text),
      EnDash, '-'), RightSingleQuote, '\''), LeftDoubleQuote, '"'), RightDoubleQuote, '"')
  }

  // ---------------------------------------------------------------------------
  // The substitutions never fire
  // ---------------------------------------------------------------------------

  lemma ReplaceAbsent(s: string, target: char, with: char)
    requires target !in s
    ensures Replace(s, target, with) == s
  {
    assert forall i :: 0 <= i < |s| ==> Replace(s, target, with)[i] == s[i];
  }

  /**
    The four substitutions are dead code: the filter has already removed every
    character they look for, so `clean_text` equals the bare Latin-1 filter.
   */
  lemma CleanTextIsLatin1Filter(text: string)
    ensures CleanText(text) == KeepLatin1(text)
  {
    var k := KeepLatin1(text);
    assert !IsLatin1(EnDash) && !IsLatin1(RightSingleQuote);
    assert !IsLatin1(LeftDoubleQuote) && !IsLatin1(RightDoubleQuote);
    ReplaceAbsent(k, EnDash, '-');
    ReplaceAbsent(k, RightSingleQuote, '\'');
    ReplaceAbsent(k, LeftDoubleQuote, '"');
    ReplaceAbsent(k, RightDoubleQuote, '"');
  }

  // ---------------------------------------------------------------------------
  // Properties of the filter
  // ---------------------------------------------------------------------------

  /** The filter leaves Latin-1 text unchanged. */
  lemma {:induction false} KeepLatin1Identity(s: string)
    requires AllLatin1(s)
    ensures KeepLatin1(s) == s
  {
    if s != [] {
      KeepLatin1Identity(s[1..]);
      assert [s[0]] + s[1..] == s;
    }
  }

  lemma {:induction false} KeepLatin1Concat(a: string, b: string)
    ensures KeepLatin1(a + b) == KeepLatin1(a) + KeepLatin1(b)
  {
    if a == [] {
      assert a + b == b;
    } else {
      assert (a + b)[0] == a[0];
      assert (a + b)[1..] == a[1..] + b;
      assert KeepLatin1(a + b) == (if IsLatin1(a[0]) then [a[0]] else []) + KeepLatin1(a[1..] + b);
      KeepLatin1Concat(a[1..], b);
    }
  }

  /** The filter keeps every Latin-1 character as often as it occurs and no other. */
  lemma {:induction false} KeepLatin1Count(s: string, c: char)
    ensures Count(KeepLatin1(s), c) == if IsLatin1(c) then Count(s, c) else 0
  {
    if s != [] {
      KeepLatin1Count(s[1..], c);
      var head := if IsLatin1(s[0]) then [s[0]] else [];
      CountConcat(head, KeepLatin1(s[1..]), c);
    }
  }

  /**
    `a` is a subsequence of `b`: `a` can be obtained from `b` by deleting
    characters without reordering the rest (matched greedily from the left).
   */
  ghost predicate IsSubsequence(a: string, b: string)
    decreases |b|
  {
    a == [] || (b != [] && if a[0] == b[0] then IsSubsequence(a[1..], b[1..]) else IsSubsequence(a, b[1..]))
  }

  lemma {:induction false} KeepLatin1Subsequence(s: string)
    ensures IsSubsequence(KeepLatin1(s), s)
  {
    if s != [] {
      KeepLatin1Subsequence(s[1..]);
      var rest := KeepLatin1(s[1..]);
      if IsLatin1(s[0]) {
        assert KeepLatin1(s) == [s[0]] + rest;
        assert ([s[0]] + rest)[1..] == rest;
      } else {
        assert KeepLatin1(s) == rest;
        assert rest != [] ==> rest[0] != s[0];
      }
    }
  }

  /** The filter applied to each of a list of strings. */
  function KeepLatin1Each(parts: seq<string>): (r: seq<string>)
    ensures |r| == |parts|
    ensures forall i :: 0 <= i < |parts| ==> r[i] == KeepLatin1(parts[i])
  {
    if parts == [] then [] else [KeepLatin1(parts[0])] + KeepLatin1Each(parts[1..])
  }

  /**
    Filtering and then splitting at a Latin-1 separator gives the same pieces
    as splitting and then filtering each piece.
   */
  lemma {:induction false} SplitKeepLatin1(s: string, sep: char)
    requires IsLatin1(sep)
    ensures Split(KeepLatin1(s), sep) == KeepLatin1Each(Split(s, sep))
  {
    if s != [] {
      SplitKeepLatin1(s[1..], sep);
      var k := KeepLatin1(s[1..]);
      var rest := Split(s[1..], sep);
      if s[0] == sep {
        assert KeepLatin1(s) == [sep] + k;
        assert ([sep] + k)[1..] == k;
        assert Split(s, sep) == [[]] + rest;
        assert ([[]] + rest)[1..] == rest;
      } else {
        var head := [s[0]] + rest[0];
        assert Split(s, sep) == [head] + rest[1..];
        assert ([head] + rest[1..])[1..] == rest[1..];
        assert head[1..] == rest[0];
        assert rest == [rest[0]] + rest[1..];
        if IsLatin1(s[0]) {
          assert KeepLatin1(s) == [s[0]] + k;
          assert ([s[0]] + k)[1..] == k;
        } else {
          assert KeepLatin1(s) == k;
          assert KeepLatin1(head) == KeepLatin1(rest[0]);
          assert KeepLatin1Each(rest) == [KeepLatin1(rest[0])] + KeepLatin1Each(rest[1..]);
          assert KeepLatin1Each(Split(s, sep)) == [KeepLatin1(head)] + KeepLatin1Each(rest[1..]);
        }
      }
    }
  }

  lemma AllLatin1Concat(a: string, b: string)
    requires AllLatin1(a) && AllLatin1(b)
    ensures AllLatin1(a + b)
  {
    forall k | 0 <= k < |a + b| ensures IsLatin1((a + b)[k]) {
      if k >= |a| { assert (a + b)[k] == b[k - |a|]; }
    }
  }

  /** Every piece of a split of Latin-1 text is Latin-1. */
  lemma {:induction false} SplitOfLatin1(s: string, sep: char)
    requires AllLatin1(s)
    ensures forall i :: 0 <= i < |Split(s, sep)| ==> AllLatin1(Split(s, sep)[i])
  {
    if s != [] {
      SplitOfLatin1(s[1..], sep);
      var rest := Split(s[1..], sep);
      if s[0] != sep {
        var head := [s[0]] + rest[0];
        assert Split(s, sep) == [head] + rest[1..];
        assert AllLatin1(head) by {
          forall k | 0 <= k < |head| ensures IsLatin1(head[k]) {
            if k > 0 { assert head[k] == rest[0][k - 1]; }
          }
        }
      }
    }
  }

  /** Cleaning and then splitting at newlines is splitting and then cleaning each line. */
  lemma SplitCleanText(text: string)
    ensures var lines := Split(text, '\n');
      Split(CleanText(text), '\n') == seq(|lines|, i requires 0 <= i < |lines| => CleanText(lines[i]))
  {
    var lines := Split(text, '\n');
    CleanTextIsLatin1Filter(text);
    SplitKeepLatin1(text, '\n');
    assert Split(CleanText(text), '\n') == KeepLatin1Each(lines);
    forall i | 0 <= i < |lines|
      ensures CleanText(lines[i]) == KeepLatin1(lines[i])
    {
      CleanTextIsLatin1Filter(lines[i]);
    }
  }

  // ---------------------------------------------------------------------------
  // Properties of clean_text
  // ---------------------------------------------------------------------------

  /** A character survives cleaning exactly when it occurs in the input and is Latin-1. */
  lemma CleanTextMembership(text: string, c: char)
    ensures c in CleanText(text) <==> c in text && IsLatin1(c)
  {
    CleanTextIsLatin1Filter(text);
    KeepLatin1Count(text, c);
  }

  /**
    Cleaning deletes exactly the characters at or above 256: each Latin-1
    character keeps its number of occurrences, every other one has none left,
    and what remains keeps its order.
   */
  lemma CleanTextRemovesExactlyNonLatin1(text: string)
    ensures forall c :: Count(CleanText(text), c) == if IsLatin1(c) then Count(text, c) else 0
    ensures IsSubsequence(CleanText(text), text)
  {
    CleanTextIsLatin1Filter(text);
    forall c
      ensures Count(CleanText(text), c) == if IsLatin1(c) then Count(text, c) else 0
    {
      KeepLatin1Count(text, c);
    }
    KeepLatin1Subsequence(text);
  }

  /** Every newline of the input reaches the output. */
  lemma CleanTextKeepsNewlines(text: string)
    ensures Count(CleanText(text), '\n') == Count(text, '\n')
  {
    CleanTextIsLatin1Filter(text);
    KeepLatin1Count(text, '\n');
  }

  /**
    No hyphen or straight quote is ever produced by a substitution: the
    output has exactly as many of each as the input.
   */
  lemma CleanTextIntroducesNoSubstitutes(text: string)
    ensures Count(CleanText(text), '-') == Count(text, '-')
    ensures Count(CleanText(text), '\'') == Count(text, '\'')
    ensures Count(CleanText(text), '"') == Count(text, '"')
  {
    CleanTextIsLatin1Filter(text);
    KeepLatin1Count(text, '-');
    KeepLatin1Count(text, '\'');
    KeepLatin1Count(text, '"');
  }

  lemma CleanTextIdempotent(text: string)
    ensures CleanText(CleanText(text)) == CleanText(text)
  {
    CleanTextIsLatin1Filter(text);
    CleanTextIsLatin1Filter(CleanText(text));
    KeepLatin1Identity(CleanText(text));
  }

  lemma CleanTextConcat(a: string, b: string)
    ensures CleanText(a + b) == CleanText(a) + CleanText(b)
  {
    CleanTextIsLatin1Filter(a + b);
    CleanTextIsLatin1Filter(a);
    CleanTextIsLatin1Filter(b);
    KeepLatin1Concat(a, b);
  }

  /** Latin-1 text passes through cleaning unchanged. */
  lemma CleanTextOfLatin1(text: string)
    requires AllLatin1(text)
    ensures CleanText(text) == text
  {
    CleanTextIsLatin1Filter(text);
    KeepLatin1Identity(text);
  }

  /** A single character outside Latin-1 is deleted outright. */
  lemma CleanTextDeletes(c: char)
    requires !IsLatin1(c)
    ensures CleanText([c]) == []
  {
    CleanTextIsLatin1Filter([c]);
    assert [c][1..] == [];
  }

  /** The en dash in "2 – 2" is deleted rather than turned into a hyphen. */
  lemma CleanTextDeletesEnDash()
    ensures CleanText("2 " + [EnDash] + " 2") == "2  2"
  {
    var a, b := "2 ", " 2";
    CleanTextIsLatin1Filter(a + [EnDash] + b);
    KeepLatin1Concat(a + [EnDash], b);
    KeepLatin1Concat(a, [EnDash]);
    KeepLatin1Identity(a);
    KeepLatin1Identity(b);
    assert KeepLatin1([EnDash]) == [] by {
      assert [EnDash][1..] == [];
    }
    assert a + b == "2  2";
  }

  /** Both the en dash and the emoji of "2 – 2 😀 = ?" are deleted. */
  lemma CleanTextDeletesEnDashAndEmoji()
    ensures CleanText("2 " + [EnDash] + " 2 " + ['\U{1F600}'] + " = ?") == "2  2  = ?"
  {
    var emoji := '\U{1F600}';
    var a, b, c := "2 ", " 2 ", " = ?";
    var ad := a + [EnDash];
    var adb := ad + b;
    var adbe := adb + [emoji];
    var s := adbe + c;
    assert KeepLatin1([EnDash]) == [] by { assert [EnDash][1..] == []; }
    assert KeepLatin1([emoji]) == [] by { assert [emoji][1..] == []; }
    KeepLatin1Identity(a);
    KeepLatin1Identity(b);
    KeepLatin1Identity(c);
    KeepLatin1Concat(a, [EnDash]);
    assert KeepLatin1(ad) == a;
    KeepLatin1Concat(ad, b);
    assert KeepLatin1(adb) == a + b;
    KeepLatin1Concat(adb, [emoji]);
    assert KeepLatin1(adbe) == a + b;
    KeepLatin1Concat(adbe, c);
    assert KeepLatin1(s) == a + b + c;
    CleanTextIsLatin1Filter(s);
    assert a + b + c == "2  2  = ?";
  }
}
