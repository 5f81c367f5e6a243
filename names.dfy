/** Normalisation of a message's author label (wordle_stats.py, lines 34-35):
    strip it, then delete every forwarding annotation `\s+via\s+@\w+`. */
module Names {
  import opened Wrappers
  import opened Lexical

  /** The length of a match of `@\w+` at the start of u, if there is one. */
  function HandleMatch(u: string): (o: Option<nat>)
    ensures o.Some? ==> 1 < o.value <= |u|
  {
    if u == [] || u[0] != '@' then None
    else
      var w := SpanWord(u[1..]);
      if w == 0 then None else Some(1 + w)
  }

  /** The length of a match of `via\s+@\w+` at the start of t, if there is one. */
  function KeywordMatch(t: string): (o: Option<nat>)
    ensures o.Some? ==> 3 < o.value <= |t|
  {
    if |t| < 3 || t[0] != 'v' || t[1] != 'i' || t[2] != 'a' then None
    else
      var w := SpanSpace(t[3..]);
      if w == 0 then None
      else match HandleMatch(t[3 + w..])
        case None => None
        case Some(n) => Some(3 + w + n)
  }

  /** The length of a match of `\s+via\s+@\w+` that starts at the very beginning of s, if there is one.
      Every quantifier in the pattern is followed by a character its class excludes, so the greedy
      match the regular-expression engine finds is the one made of maximal runs. */
  function ViaMatch(s: string): (o: Option<nat>)
    ensures o.Some? ==> 0 < o.value <= |s|
  {
    var w := SpanSpace(s);
    if w == 0 then None
    else match KeywordMatch(s[w..])
      case None => None
      case Some(n) => Some(w + n)
  }

  /** `re.sub(r"\s+via\s+@\w+", "", s)`: scan left to right, delete each match and resume after it. */
  function RemoveVia(s: string): (r: string)
    ensures |r| <= |s|
    decreases |s|
  {
    if s == [] then []
    else match ViaMatch(s)
      case Some(n) => RemoveVia(s[n..])
      case None => [s[0]] + RemoveVia(s[1..])
  }

  /** The player name recorded for an author label. */
  function NormaliseName(author: string): string
  {
    RemoveVia(Strip(author))
  }

  /** No position where the pattern matches. */
  predicate NoViaAnywhere(s: string) {
    forall i :: 0 <= i < |s| ==> ViaMatch(s[i..]).None?
  }

  /** A string with nothing to delete is left as it is. */
  lemma {:induction false} RemoveViaNoMatch(s: string)
    requires NoViaAnywhere(s)
    ensures RemoveVia(s) == s
  {
    if s != [] {
      assert ViaMatch(s[0..]).None?;
      assert s[0..] == s;
      forall i | 0 <= i < |s[1..]| ensures ViaMatch(s[1..][i..]).None? {
        assert s[1..][i..] == s[i + 1..];
      }
      RemoveViaNoMatch(s[1..]);
    }
  }

  /** A forwarding annotation the exporter appends. */
  function Forwarded(handle: string): string {
    " via @" + handle
  }

  /** What every annotation starts with: a blank, then the "v" of "via". */
  predicate BlankThenV(f: string) {
    |f| >= 2 && f[0] == ' ' && f[1] == 'v'
  }

  lemma HandleMatchAppend(u: string, f: string)
    requires u != [] && BlankThenV(f)
    ensures HandleMatch(u + f) == HandleMatch(u)
  {
    assert (u + f)[0] == u[0];
    if u[0] == '@' {
      assert (u + f)[1..] == u[1..] + f;
      SpanWordAppend(u[1..], f);
    }
  }

  /** Text of one or two characters followed by the annotation: the blank stands where "via" needs a letter. */
  lemma KeywordMatchShort(t: string, f: string)
    requires 0 < |t| < 3 && BlankThenV(f)
    ensures KeywordMatch(t + f).None? && KeywordMatch(t).None?
  {
    assert (t + f)[|t|] == ' ';
  }

  /** Text that is exactly "via" followed by the annotation: `@` would be needed where the annotation's "v" is. */
  lemma KeywordMatchAtEnd(t: string, f: string)
    requires |t| == 3 && BlankThenV(f)
    ensures KeywordMatch(t + f).None? && KeywordMatch(t).None?
  {
    var s := t + f;
    assert s[3..] == f;
    assert SpanSpace(f) == 1 by { assert !IsSpace(f[1]); }
    assert f[1..][0] == 'v';
  }

  lemma KeywordMatchLonger(t: string, f: string)
    requires |t| > 3 && t[0] == 'v' && t[1] == 'i' && t[2] == 'a'
    requires !IsSpace(t[|t| - 1]) && BlankThenV(f)
    ensures KeywordMatch(t + f) == KeywordMatch(t)
  {
    var s := t + f;
    var x := t[3..];
    assert s[0] == 'v' && s[1] == 'i' && s[2] == 'a';
    assert s[3..] == x + f;
    SpanSpaceAppend(x, f);
    var w := SpanSpace(x);
    if w > 0 {
      assert s[3 + w..] == t[3 + w..] + f;
      HandleMatchAppend(t[3 + w..], f);
    }
  }

  lemma KeywordMatchAppend(t: string, f: string)
    requires t != [] && !IsSpace(t[|t| - 1]) && BlankThenV(f)
    ensures KeywordMatch(t + f) == KeywordMatch(t)
  {
    if |t| < 3 {
      KeywordMatchShort(t, f);
    } else if !(t[0] == 'v' && t[1] == 'i' && t[2] == 'a') {
      var s := t + f;
      assert s[0] == t[0] && s[1] == t[1] && s[2] == t[2];
    } else if |t| == 3 {
      KeywordMatchAtEnd(t, f);
    } else {
      KeywordMatchLonger(t, f);
    }
  }

  /** Two strings agree on ViaMatch when their blank runs and what follows them agree. */
  lemma ViaMatchSame(s1: string, s2: string, w: nat)
    requires SpanSpace(s1) == SpanSpace(s2) == w
    requires w > 0 ==> KeywordMatch(s1[w..]) == KeywordMatch(s2[w..])
    ensures ViaMatch(s1) == ViaMatch(s2)
  {
    if w > 0 {
      var k := KeywordMatch(s1[w..]);
      assert ViaMatch(s1) == if k.None? then None else Some(w + k.value);
      assert ViaMatch(s2) == if k.None? then None else Some(w + k.value);
    }
  }

  /** An annotation appended after a non-blank character changes no match that starts before it. */
  lemma ViaMatchAppend(s: string, f: string)
    requires s != [] && !IsSpace(s[|s| - 1]) && BlankThenV(f)
    ensures ViaMatch(s + f) == ViaMatch(s)
  {
    SpanSpaceAppend(s, f);
    var w := SpanSpace(s);
    if w > 0 {
      var t := s[w..];
      assert (s + f)[w..] == t + f;
      assert t[|t| - 1] == s[|s| - 1];
      KeywordMatchAppend(t, f);
    }
    ViaMatchSame(s + f, s, w);
  }

  /** No match starts inside name when name is followed by an annotation, provided no match starts
      inside the name alone and the name does not end in whitespace. */
  lemma NoMatchInsideName(name: string, handle: string, i: nat)
    requires name != [] && !IsSpace(name[|name| - 1]) && NoViaAnywhere(name)
    requires i < |name|
    ensures ViaMatch((name + Forwarded(handle))[i..]).None?
  {
    var f := Forwarded(handle);
    assert BlankThenV(f);
    assert (name + f)[i..] == name[i..] + f;
    ViaMatchAppend(name[i..], f);
  }

  lemma AnnotationMatchesWhole(handle: string)
    requires handle != [] && AllWordChars(handle)
    ensures ViaMatch(Forwarded(handle)) == Some(|Forwarded(handle)|)
  {
    var s := Forwarded(handle);
    assert !IsSpace(s[1]);
    assert SpanSpace(s) == 1;
    var t := s[1..];
    assert t[3..][0] == ' ' && !IsSpace(t[3..][1]);
    assert SpanSpace(t[3..]) == 1;
    var u := t[4..];
    assert u == "@" + handle && u[1..] == handle;
    assert SpanWord(handle) == |handle|;
    assert HandleMatch(u) == Some(1 + |handle|);
    assert KeywordMatch(t) == Some(4 + 1 + |handle|);
  }

  lemma RemoveViaKeeps(s: string)
    requires s != [] && ViaMatch(s).None?
    ensures RemoveVia(s) == [s[0]] + RemoveVia(s[1..])
  {
  }

  lemma RemoveViaDeletes(s: string)
    requires ViaMatch(s) == Some(|s|)
    ensures RemoveVia(s) == []
  {
    assert s != [];
    var e := s[|s|..];
    assert e == [];
    assert RemoveVia(s) == RemoveVia(e);
  }

  lemma {:induction false} RemoveViaBeforeAnnotation(name: string, handle: string, k: nat)
    requires name != [] && !IsSpace(name[|name| - 1]) && NoViaAnywhere(name)
    requires handle != [] && AllWordChars(handle)
    requires k <= |name|
    ensures RemoveVia((name + Forwarded(handle))[k..]) == name[k..]
    decreases |name| - k
  {
    var full := name + Forwarded(handle);
    var s := full[k..];
    if k == |name| {
      assert s == Forwarded(handle);
      AnnotationMatchesWhole(handle);
      RemoveViaDeletes(s);
    } else {
      NoMatchInsideName(name, handle, k);
      RemoveViaKeeps(s);
      RemoveViaBeforeAnnotation(name, handle, k + 1);
      var rest := full[k + 1..];
      assert s[1..] == rest;
      assert RemoveVia(rest) == name[k + 1..];
      assert s[0] == name[k];
      assert name[k..] == [name[k]] + name[k + 1..];
    }
  }

  /** A name followed by a "via @handle" annotation normalises to the bare name, as with
      "Jane Doe via @SomeBot" becoming "Jane Doe". */
  lemma ForwardedNameNormalised(name: string, handle: string)
    requires name != [] && Stripped(name) && NoViaAnywhere(name)
    requires handle != [] && AllWordChars(handle)
    ensures NormaliseName(name + Forwarded(handle)) == name
  {
    var s := name + Forwarded(handle);
    assert s[0] == name[0];
    assert s[|s| - 1] == handle[|handle| - 1];
    StripStripped(s);
    RemoveViaBeforeAnnotation(name, handle, 0);
    assert s[0..] == s;
  }

  /** The only blank of a two-word name is followed by a letter other than 'v', so no match starts
      anywhere in it; "via" inside a word does not matter. */
  lemma TwoWordsNoVia(n: string, k: nat)
    requires 0 < k < |n| - 1 && n[k] == ' ' && n[k + 1] != 'v' && !IsSpace(n[k + 1])
    requires forall i :: 0 <= i < |n| && i != k ==> !IsSpace(n[i])
    ensures NoViaAnywhere(n)
  {
    forall i | 0 <= i < |n| ensures ViaMatch(n[i..]).None? {
      assert n[i..][0] == n[i];
      if i == k {
        assert n[k..][1] == n[k + 1];
        assert SpanSpace(n[k..]) == 1;
        assert n[k..][1..][0] == n[k + 1];
      }
    }
  }

  lemma JaneDoeExample()
    ensures NormaliseName("Jane Doe via @SomeBot") == "Jane Doe"
  {
    TwoWordsNoVia("Jane Doe", 4);
    assert "Jane Doe via @SomeBot" == "Jane Doe" + Forwarded("SomeBot");
    ForwardedNameNormalised("Jane Doe", "SomeBot");
  }

  /** A name that itself contains the letters "via" loses only the annotation. */
  lemma OliviaDoeExample()
    ensures NormaliseName("Olivia Doe via @SomeBot") == "Olivia Doe"
  {
    TwoWordsNoVia("Olivia Doe", 6);
    assert "Olivia Doe via @SomeBot" == "Olivia Doe" + Forwarded("SomeBot");
    ForwardedNameNormalised("Olivia Doe", "SomeBot");
  }

  /** A label without any annotation keeps its stripped form. */
  lemma PlainNameStripped(author: string)
    requires NoViaAnywhere(Strip(author))
    ensures NormaliseName(author) == Strip(author)
  {
    RemoveViaNoMatch(Strip(author));
  }
}
