/** What the patterns of grep mean, for literal strings and each operator. */
module GrepLaws {
  import opened Grep

  /** A string without operators. */
  predicate Plain(w: string) {
    forall c <- w :: c !in "^.*$"
  }

  /** `w` stands at place `i` of the text. */
  ghost predicate OccursAt(w: string, text: string, i: nat) {
    i + |w| <= |text| && text[i..i + |w|] == w
  }

  lemma Anchored(re: string, text: string)
    ensures Found("^" + re, text) <==> Here(Items(re), text)
  {
    assert ("^" + re)[1..] == re;
  }

  lemma {:induction false} HerePlain(w: string, re: string, text: string)
    requires Plain(w) && (re == "" || re[0] != '*')
    ensures Here(Items(w + re), text) <==> w <= text && Here(Items(re), text[|w|..])
  {
    hide Here;
    if w == "" {
      assert w + re == re && text[0..] == text;
    } else {
      var all := w + re;
      assert all[1..] == w[1..] + re && all[0] == w[0] && w[0] in w && all != "$";
      assert |all| > 1 ==> all[1] == if |w| > 1 then w[1] else re[0];
      assert |w| > 1 ==> w[1] in w;
      HereOne(w[0], Items(w[1..] + re), text);
      if text != "" {
        HerePlain(w[1..], re, text[1..]);
        assert w <= text <==> w[0] == text[0] && w[1..] <= text[1..];
        if w <= text { assert text[1..][|w| - 1..] == text[|w|..]; }
      }
    }
  }

  /** A pattern without '^' is looked for at every place in the text. */
  lemma Unanchored(re: string, text: string)
    requires re == "" || re[0] != '^'
    ensures Found(re, text) <==> exists i: nat :: i <= |text| && Found("^" + re, text[i..])
  {
    hide Here;
    forall i: nat | i <= |text|
      ensures Found("^" + re, text[i..]) <==> Here(Items(re), text[i..])
    {
      Anchored(re, text[i..]);
    }
  }

  /** After '^' a character is matched by itself, and '.' by any. */
  lemma OneMeans(c: char, re: string, text: string)
    requires c != '.' && (re == "" || re[0] != '*') && (c != '$' || re != "")
    ensures Found("^" + [c] + re, text) <==> text != "" && text[0] == c && Found("^" + re, text[1..])
    ensures Found("^." + re, text) <==> text != "" && Found("^" + re, text[1..])
  {
    hide Here;
    assert "^" + [c] + re == "^" + ([c] + re) && "^." + re == "^" + ("." + re);
    assert ([c] + re)[1..] == re && ("." + re)[1..] == re;
    assert |[c] + re| > 1 ==> ([c] + re)[1] == re[0];
    assert |"." + re| > 1 ==> ("." + re)[1] == re[0];
    assert [c] + re == "$" ==> re == [];
    assert ("." + re)[0] == '.' && ([c] + re)[0] == c;
    Anchored([c] + re, text);
    Anchored("." + re, text);
    HereOne(c, Items(re), text);
    HereOne('.', Items(re), text);
    if text != "" { Anchored(re, text[1..]); }
  }

  /** A starred character is matched by any run of it, and `.*` by anything. */
  lemma StarMeans(c: char, re: string, text: string)
    requires c != '.'
    ensures Found("^" + [c] + "*" + re, text) <==>
      exists k: nat :: k <= |text| && (forall j :: 0 <= j < k ==> text[j] == c) && Found("^" + re, text[k..])
    ensures Found("^.*" + re, text) <==> exists k: nat :: k <= |text| && Found("^" + re, text[k..])
  {
    hide Here, Found;
    assert "^" + [c] + "*" + re == "^" + ([c] + "*" + re) && "^.*" + re == "^" + (".*" + re);
    assert ([c] + "*" + re)[2..] == re && (".*" + re)[2..] == re;
    Anchored([c] + "*" + re, text);
    Anchored(".*" + re, text);
    HereStar(c, Items(re), text);
    HereStar('.', Items(re), text);
    forall k: nat | k <= |text|
      ensures StarAt(c, Items(re), text, k) <==>
        (forall j :: 0 <= j < k ==> text[j] == c) && Found("^" + re, text[k..])
      ensures StarAt('.', Items(re), text, k) <==> Found("^" + re, text[k..])
    {
      Anchored(re, text[k..]);
      assert forall j :: 0 <= j < k ==> text[..k][j] == text[j];
      assert Repeats(c, text[..k]) <==> forall j :: 0 <= j < k ==> text[j] == c by {
        assert forall j :: 0 <= j < k ==> text[..k][j] in text[..k];
      }
    }
    assert forall k: nat :: StarAt(c, Items(re), text, k) ==> k <= |text|;
    assert forall k: nat :: StarAt('.', Items(re), text, k) ==> k <= |text|;
  }

  /** '^' and nothing after it matches any text, and "^$" the empty one alone. */
  lemma EndMeans(text: string)
    ensures Found("^", text) && (Found("^$", text) <==> text == "")
  {
    hide Here;
    assert "^" + "" == "^" && "^" + "$" == "^$";
    Anchored("", text);
    Anchored("$", text);
    HereEmpty(text);
    HereEnd(text);
  }

  lemma PlainThen(w: string, re: string, text: string)
    requires Plain(w) && (re == "" || re[0] != '*')
    ensures Found("^" + (w + re), text) <==> w <= text && Found("^" + re, text[|w|..])
  {
    hide Found, Here;
    Anchored(w + re, text);
    HerePlain(w, re, text);
    if w <= text { Anchored(re, text[|w|..]); }
  }

  lemma PlainHead(w: string, re: string)
    requires Plain(w) && (w != "" || re == "" || re[0] != '^')
    ensures w + re == "" || (w + re)[0] != '^'
  {
    if w != "" { assert w[0] in w && (w + re)[0] == w[0]; }
  }

  /** "^w": the texts that begin with `w`. */
  lemma AtStart(w: string, text: string)
    requires Plain(w)
    ensures Found("^" + w, text) <==> w <= text
  {
    hide Found;
    assert w + "" == w && "^" + "" == "^";
    PlainThen(w, "", text);
    if w <= text { EndMeans(text[|w|..]); }
  }

  /** "^w$": `w` alone. */
  lemma Whole(w: string, text: string)
    requires Plain(w)
    ensures Found("^" + w + "$", text) <==> text == w
  {
    hide Found;
    assert "^" + w + "$" == "^" + (w + "$") && "^" + "$" == "^$";
    PlainThen(w, "$", text);
    if w <= text {
      EndMeans(text[|w|..]);
      assert text[|w|..] == "" ==> text == w;
    }
  }

  /** "w": the texts in which `w` occurs. */
  lemma Anywhere(w: string, text: string)
    requires Plain(w)
    ensures Found(w, text) <==> exists i: nat :: OccursAt(w, text, i)
  {
    hide Found;
    assert w + "" == w;
    PlainHead(w, "");
    Unanchored(w, text);
    forall i: nat | i <= |text|
      ensures Found("^" + w, text[i..]) <==> OccursAt(w, text, i)
    {
      AtStart(w, text[i..]);
      if i + |w| <= |text| { assert text[i..][..|w|] == text[i..i + |w|]; }
    }
    assert forall i: nat :: OccursAt(w, text, i) ==> i <= |text|;
  }

  /** "w$": the texts that end in `w`. */
  lemma AtEnd(w: string, text: string)
    requires Plain(w)
    ensures Found(w + "$", text) <==> |w| <= |text| && text[|text| - |w|..] == w
  {
    hide Found;
    PlainHead(w, "$");
    Unanchored(w + "$", text);
    forall i: nat | i <= |text|
      ensures Found("^" + (w + "$"), text[i..]) <==> text[i..] == w
    {
      assert "^" + w + "$" == "^" + (w + "$");
      Whole(w, text[i..]);
    }
    if |w| <= |text| && text[|text| - |w|..] == w { assert Found("^" + (w + "$"), text[|text| - |w|..]); }
  }

  /** Where `u.v` is found: one character between the two. */
  lemma AnyChar(u: string, v: string, text: string)
    requires Plain(u) && Plain(v)
    ensures Found(u + "." + v, text) <==>
      exists i: nat :: OccursAt(u, text, i) && OccursAt(v, text, i + |u| + 1)
  {
    hide Found;
    var re := u + ("." + v);
    assert u + "." + v == re;
    PlainHead(u, "." + v);
    Unanchored(re, text);
    forall i: nat | i <= |text|
      ensures Found("^" + re, text[i..]) <==> OccursAt(u, text, i) && OccursAt(v, text, i + |u| + 1)
    {
      AnyCharAt(u, v, text, i);
    }
    assert forall i: nat :: OccursAt(u, text, i) ==> i <= |text|;
  }

  lemma AnyCharAt(u: string, v: string, text: string, i: nat)
    requires Plain(u) && Plain(v) && i <= |text|
    ensures Found("^" + (u + ("." + v)), text[i..]) <==> OccursAt(u, text, i) && OccursAt(v, text, i + |u| + 1)
  {
    hide Found;
    PlainThen(u, "." + v, text[i..]);
    if u <= text[i..] {
      var k := i + |u|;
      assert text[i..][..|u|] == text[i..k] && text[i..][|u|..] == text[k..] && "^" + ("." + v) == "^." + v;
      assert v != "" ==> v[0] in v;
      OneMeans('x', v, text[k..]);
      if k < |text| {
        assert text[k..][1..] == text[k + 1..];
        AtStart(v, text[k + 1..]);
        if k + 1 + |v| <= |text| { assert text[k + 1..][..|v|] == text[k + 1..k + 1 + |v|]; }
      }
    } else if i + |u| <= |text| {
      assert text[i..][..|u|] == text[i..i + |u|];
    }
  }

  /** `u` at `i`, `v` further on, and what lies between is `k` characters long
      and, unless `c` is '.', all `c`. */
  ghost predicate RunAt(u: string, c: char, v: string, text: string, i: nat, k: nat) {
    && i + |u| + k + |v| <= |text| && text[i..i + |u|] == u && text[i + |u| + k..i + |u| + k + |v|] == v
    && (c == '.' || forall j :: i + |u| <= j < i + |u| + k ==> text[j] == c)
  }

  lemma RunMeans(u: string, c: char, v: string, text: string, i: nat)
    requires Plain(v) && i + |u| <= |text| && text[i..i + |u|] == u
    ensures Found("^" + ([c] + "*" + v), text[i + |u|..]) <==> exists k: nat :: RunAt(u, c, v, text, i, k)
  {
    hide Found;
    var t := text[i + |u|..];
    assert "^" + ([c] + "*" + v) == "^" + [c] + "*" + v && "^.*" + v == "^" + ['.'] + "*" + v;
    StarMeans(if c == '.' then 'x' else c, v, t);
    forall k: nat | k <= |t|
      ensures RunAt(u, c, v, text, i, k) <==>
        (c == '.' || forall j :: 0 <= j < k ==> t[j] == c) && Found("^" + v, t[k..])
    {
      AtStart(v, t[k..]);
      assert forall j :: 0 <= j < |t| ==> t[j] == text[i + |u| + j];
      assert forall j :: i + |u| <= j < |text| ==> text[j] == t[j - i - |u|];
      assert t[k..] == text[i + |u| + k..];
      if k + |v| <= |t| { assert t[k..][..|v|] == text[i + |u| + k..i + |u| + k + |v|]; }
    }
  }

  /** Where `u`, any number of `c`, and `v` are found, or with `.*` any
      characters in the middle. */
  lemma Starred(u: string, c: char, v: string, text: string)
    requires Plain(u) && Plain(v) && c != '*' && (c != '^' || u != "")
    ensures Found(u + ([c] + "*" + v), text) <==> exists i: nat, k: nat :: RunAt(u, c, v, text, i, k)
  {
    hide Found;
    var tail := [c] + "*" + v;
    assert tail[0] == c;
    PlainHead(u, tail);
    Unanchored(u + tail, text);
    forall i: nat | i <= |text|
      ensures Found("^" + (u + tail), text[i..]) <==> exists k: nat :: RunAt(u, c, v, text, i, k)
    {
      PlainThen(u, tail, text[i..]);
      if u <= text[i..] {
        assert text[i..][..|u|] == text[i..i + |u|] && text[i..][|u|..] == text[i + |u|..];
        RunMeans(u, c, v, text, i);
      } else if i + |u| <= |text| {
        assert text[i..][..|u|] == text[i..i + |u|];
      }
    }
    forall i: nat, k: nat | RunAt(u, c, v, text, i, k)
      ensures Found(u + tail, text)
    {
      assert i <= |text| && Found("^" + (u + tail), text[i..]);
    }
  }
}
