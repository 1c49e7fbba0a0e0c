/*
 * The programmer's private data (two firmware image paths with their
 * defaults) and the parser of extended parameters "data=<path>" and
 * "text=<path>" that overrides them.
 */
module ExtParams {

  datatype Option<T> = None | Some(value: T)

  /** The C locale's isspace, which sscanf's "%s" uses to delimit a word. */
  predicate IsSpace(c: char)
  {
    c == ' ' || c == '\t' || c == '\n' || c == '\U{B}' || c == '\U{C}' || c == '\r'
  }

  /** The C locale's white space is the space and the control characters
      from horizontal tab to carriage return. */
  lemma IsSpaceRange(c: char)
    ensures IsSpace(c) <==> c == ' ' || '\t' <= c <= '\r'
  {
  }

  /** The number of white-space characters s starts with. */
  function LeadingSpaces(s: string): (k: nat)
    ensures k <= |s|
    ensures forall i :: 0 <= i < k ==> IsSpace(s[i])
    ensures k == |s| || !IsSpace(s[k])
  {
    if s == [] || !IsSpace(s[0]) then 0 else 1 + LeadingSpaces(s[1..])
  }

  /** The number of non-white-space characters s starts with. */
  function WordLength(s: string): (k: nat)
    ensures k <= |s|
    ensures forall i :: 0 <= i < k ==> !IsSpace(s[i])
    ensures k == |s| || IsSpace(s[k])
  {
    if s == [] || IsSpace(s[0]) then 0 else 1 + WordLength(s[1..])
  }

  /** sscanf's "%s" conversion: skip white space, then take the longest run of
      non-white-space characters. It fails, converting nothing, exactly when
      no non-white-space character is left. */
  function ScanString(s: string): (r: Option<string>)
    ensures r.Some? <==> exists i :: 0 <= i < |s| && !IsSpace(s[i])
    ensures r.Some? ==> r.value != [] && forall i :: 0 <= i < |r.value| ==> !IsSpace(r.value[i])
    ensures r.Some? ==>
              var start, end := LeadingSpaces(s), LeadingSpaces(s) + |r.value|;
              end <= |s| && s[start..end] == r.value && (end == |s| || IsSpace(s[end]))
  {
    var k := LeadingSpaces(s);
    if k == |s| then None
    else
      var n := WordLength(s[k..]);
      assert n == |s| - k || IsSpace(s[k + n]) by { assert k + n == |s| || s[k..][n] == s[k + n]; }
      Some(s[k..k + n])
  }

  /** The two extended parameters and the prefix that introduces each. */
  datatype Key = Data | Text

  function Prefix(key: Key): string
  {
    match key
    case Data => "data="
    case Text => "text="
  }

  /** strncmp(p, prefix, strlen(prefix)) == 0 */
  predicate HasPrefix(p: string, prefix: string)
  {
    |prefix| <= |p| && p[..|prefix|] == prefix
  }

  /** strncmp over strlen(prefix) characters: equal at every position of the prefix. */
  lemma HasPrefixCompares(p: string, prefix: string)
    ensures HasPrefix(p, prefix) <==> |prefix| <= |p| && forall i :: 0 <= i < |prefix| ==> p[i] == prefix[i]
  {
    if |prefix| <= |p| && forall i :: 0 <= i < |prefix| ==> p[i] == prefix[i] {
      assert p[..|prefix|] == prefix;
    }
  }

  /** The accumulated return value and the two path fields. */
  datatype Parsed = Parsed(rv: int, data: string, text: string)
  {
    function Field(key: Key): string
    {
      match key
      case Data => data
      case Text => text
    }

    function WithField(key: Key, path: string): Parsed
    {
      match key
      case Data => this.(data := path)
      case Text => this.(text := path)
    }
  }

  /** One parameter whose prefix is that of `key`: sscanf fills the field, or
      the parameter is reported invalid and the field is left alone. */
  function Assign(st: Parsed, key: Key, p: string): (r: Parsed)
    requires HasPrefix(p, Prefix(key))
    ensures r == st.(rv := -1) || r == st.WithField(key, r.Field(key))
  {
    match ScanString(p[|Prefix(key)|..])
    case Some(path) => st.WithField(key, path)
    case None => st.(rv := -1)
  }

  /** One iteration of the parser's loop over the parameter list. */
  function Step(st: Parsed, p: string): (r: Parsed)
    ensures r.rv == st.rv || r.rv == -1
    ensures r.data == st.data || r.text == st.text
  {
    if HasPrefix(p, Prefix(Data)) then Assign(st, Data, p)
    else if HasPrefix(p, Prefix(Text)) then Assign(st, Text, p)
    else st.(rv := -1)
  }

  /** The parser's state after the whole list, processed front to back. */
  function ParseAll(ps: seq<string>, init: Parsed): (r: Parsed)
    ensures r.rv == init.rv || r.rv == -1
    ensures init.rv == -1 ==> r.rv == -1
    decreases |ps|
  {
    if ps == [] then init else Step(ParseAll(ps[..|ps| - 1], init), ps[|ps| - 1])
  }

  /** s holds at least one non-white-space character. */
  predicate HasWord(s: string)
  {
    s != [] && (!IsSpace(s[0]) || HasWord(s[1..]))
  }

  /** sscanf's "%s" finds a word exactly when one is there to find. */
  lemma {:induction false} HasWordScans(s: string)
    ensures HasWord(s) <==> ScanString(s).Some?
  {
    if s != [] && IsSpace(s[0]) {
      HasWordScans(s[1..]);
      assert LeadingSpaces(s) == 1 + LeadingSpaces(s[1..]);
    }
  }

  /** A parameter that sets the field of `key`: its prefix, then at least one
      non-white-space character. */
  predicate Sets(p: string, key: Key)
  {
    HasPrefix(p, Prefix(key)) && HasWord(p[|Prefix(key)|..])
  }

  /** A parameter the parser accepts. */
  predicate Valid(p: string)
  {
    Sets(p, Data) || Sets(p, Text)
  }

  /** The path a parameter that sets a field sets it to. */
  ghost function PathOf(p: string, key: Key): string
    requires Sets(p, key)
  {
    SetsScans(p, key);
    ScanString(p[|Prefix(key)|..]).value
  }

  /** A parameter with the prefix of `key` sets that field exactly when sscanf
      finds a word after the prefix. */
  lemma SetsScans(p: string, key: Key)
    requires HasPrefix(p, Prefix(key))
    ensures Sets(p, key) <==> ScanString(p[|Prefix(key)|..]).Some?
  {
    HasWordScans(p[|Prefix(key)|..]);
  }

  /** No parameter starts with both prefixes. */
  lemma PrefixesExclusive(p: string)
    ensures !(HasPrefix(p, Prefix(Data)) && HasPrefix(p, Prefix(Text)))
  {
    if HasPrefix(p, Prefix(Data)) {
      assert p[0] == 'd';
    }
  }

  /** One step marks the result failed exactly when the parameter is not valid. */
  lemma StepResult(st: Parsed, p: string)
    ensures Step(st, p).rv == if Valid(p) then st.rv else -1
  {
    PrefixesExclusive(p);
    if HasPrefix(p, Prefix(Data)) { SetsScans(p, Data); }
    if HasPrefix(p, Prefix(Text)) { SetsScans(p, Text); }
  }

  /** One step changes a field only when the parameter sets it, and then to
      the scanned path. */
  lemma StepField(st: Parsed, p: string, key: Key)
    ensures Step(st, p).Field(key) == if Sets(p, key) then PathOf(p, key) else st.Field(key)
  {
    PrefixesExclusive(p);
    if HasPrefix(p, Prefix(Data)) { SetsScans(p, Data); }
    if HasPrefix(p, Prefix(Text)) { SetsScans(p, Text); }
  }

  /** Every parameter of the list is valid. */
  ghost predicate AllValid(ps: seq<string>)
  {
    forall k :: 0 <= k < |ps| ==> Valid(ps[k])
  }

  lemma AllValidSnoc(ps: seq<string>)
    requires ps != []
    ensures AllValid(ps) <==> AllValid(ps[..|ps| - 1]) && Valid(ps[|ps| - 1])
  {
    assert forall k :: 0 <= k < |ps| - 1 ==> ps[..|ps| - 1][k] == ps[k];
  }

  /** pruss_parseextparams, which starts from rv = 0, returns 0 exactly when
      every parameter is valid and -1 otherwise. */
  lemma {:induction false} ParseAllResult(ps: seq<string>, init: Parsed)
    ensures ParseAll(ps, init).rv == if AllValid(ps) then init.rv else -1
    decreases |ps|
  {
    if ps != [] {
      var front, last := ps[..|ps| - 1], ps[|ps| - 1];
      ParseAllResult(front, init);
      StepResult(ParseAll(front, init), last);
      AllValidSnoc(ps);
    }
  }

  /** A field no parameter sets keeps its initial value. */
  lemma {:induction false} ParseAllUnset(ps: seq<string>, init: Parsed, key: Key)
    requires forall k :: 0 <= k < |ps| ==> !Sets(ps[k], key)
    ensures ParseAll(ps, init).Field(key) == init.Field(key)
    decreases |ps|
  {
    if ps != [] {
      var front := ps[..|ps| - 1];
      assert forall k :: 0 <= k < |front| ==> front[k] == ps[k];
      ParseAllUnset(front, init, key);
      StepField(ParseAll(front, init), ps[|ps| - 1], key);
    }
  }

  /** The index of the last parameter of the list that sets the field of `key`. */
  ghost function LastSet(ps: seq<string>, key: Key): (r: Option<nat>)
    ensures r.Some? ==> r.value < |ps| && Sets(ps[r.value], key)
    decreases |ps|
  {
    if ps == [] then None
    else if Sets(ps[|ps| - 1], key) then Some(|ps| - 1)
    else LastSet(ps[..|ps| - 1], key)
  }

  /** After the loop a field holds the path of the last parameter that sets
      it, or its initial value when none does. */
  lemma {:induction false} ParseAllField(ps: seq<string>, init: Parsed, key: Key)
    ensures ParseAll(ps, init).Field(key) ==
              match LastSet(ps, key)
              case Some(k) => PathOf(ps[k], key)
              case None => init.Field(key)
    decreases |ps|
  {
    if ps != [] {
      var front := ps[..|ps| - 1];
      StepField(ParseAll(front, init), ps[|ps| - 1], key);
      ParseAllField(front, init, key);
      if !Sets(ps[|ps| - 1], key) && LastSet(front, key).Some? {
        assert front[LastSet(front, key).value] == ps[LastSet(front, key).value];
      }
    }
  }

  /** The last parameter that sets a field is the one after which none does. */
  lemma {:induction false} LastSetIs(ps: seq<string>, key: Key, k: nat)
    requires k < |ps| && Sets(ps[k], key)
    requires forall j :: k < j < |ps| ==> !Sets(ps[j], key)
    ensures LastSet(ps, key) == Some(k)
    decreases |ps|
  {
    if k < |ps| - 1 {
      DropLast(ps, key, k);
      LastSetIs(ps[..|ps| - 1], key, k);
    }
  }

  /** A field ends up with the path of the last parameter that sets it: a
      later parameter overrides an earlier one, and invalid ones are skipped. */
  lemma ParseAllLastWins(ps: seq<string>, init: Parsed, key: Key, k: nat)
    requires k < |ps| && Sets(ps[k], key)
    requires forall j :: k < j < |ps| ==> !Sets(ps[j], key)
    ensures ParseAll(ps, init).Field(key) == PathOf(ps[k], key)
  {
    LastSetIs(ps, key, k);
    ParseAllField(ps, init, key);
  }

  /** The conditions of LastSetIs carry over to the list without its last
      element, when that element is not the one that sets the field. */
  lemma DropLast(ps: seq<string>, key: Key, k: nat)
    requires k < |ps| - 1 && Sets(ps[k], key)
    requires forall j :: k < j < |ps| ==> !Sets(ps[j], key)
    ensures var front := ps[..|ps| - 1];
            Sets(front[k], key) && !Sets(ps[|ps| - 1], key) &&
            forall j :: k < j < |front| ==> !Sets(front[j], key)
  {
    var front := ps[..|ps| - 1];
    assert forall j :: 0 <= j < |front| ==> front[j] == ps[j];
  }

  /** The programmer's private data; the constructor is pruss_setup. */
  class PrivateData {
    var data: string
    var text: string

    constructor ()
      ensures data == "data.bin" && text == "text.bin"
    {
      data := "data.bin";
      text := "text.bin";
    }

    /** pruss_parseextparams: walk the list, let every valid parameter set
        its path, and remember in the result whether any parameter was invalid. */
    method ParseExtParams(extParams: seq<string>) returns (rv: int)
      modifies this
      ensures Parsed(rv, data, text) == ParseAll(extParams, Parsed(0, old(data), old(text)))
    {
      rv := 0;
      for i := 0 to |extParams|
        invariant Parsed(rv, data, text) == ParseAll(extParams[..i], Parsed(0, old(data), old(text)))
      {
        var param := extParams[i];
        assert extParams[..i + 1][..i] == extParams[..i];
        if HasPrefix(param, "data=") {
          var scanned := ScanString(param[|"data="|..]);
          if scanned.None? {
            rv := -1;
            continue;
          }
          data := scanned.value;
          continue;
        }
        if HasPrefix(param, "text=") {
          var scanned := ScanString(param[|"text="|..]);
          if scanned.None? {
            rv := -1;
            continue;
          }
          text := scanned.value;
          continue;
        }
        rv := -1;
      }
      assert extParams[..|extParams|] == extParams;
    }
  }
}
