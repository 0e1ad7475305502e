/** The identifiers the Solidity deployment script generator derives from
    names in the CSV files: contract names, variable names, enum members and
    directory names. A word character is taken to be an ASCII letter, a
    digit or `_`. */
module SolNames {
  import opened Text
  import opened JsValues

  predicate IsWordChar(c: char)
  {
    'a' <= c <= 'z' || 'A' <= c <= 'Z' || '0' <= c <= '9' || c == '_'
  }

  /** convert_type_to_solidity: "NA" and "" are the None member; any other
      type names the member of that name. The result is "Type.None" exactly
      for "NA", "" and "None" itself. */
  function ConvertTypeToSolidity(typeStr: string): (r: string)
    ensures |r| > 5 && r[..5] == "Type."
    ensures r == "Type.None" <==> typeStr == "NA" || typeStr == "" || typeStr == "None"
    ensures typeStr != "NA" && typeStr != "" ==> r[5..] == typeStr
  {
    if typeStr == "NA" || typeStr == "" then "Type.None"
    else
      var r := "Type." + typeStr;
      assert r[5..] == typeStr;
      r
  }

  /** Keeping the word characters after dropping spaces is keeping the word
      characters: a space is not one. */
  lemma {:induction false} KeepWordWithoutSpaces(s: string)
    ensures Keep(RemoveSpaces(s), IsWordChar) == Keep(s, IsWordChar)
    decreases |s|
  {
    if s != [] {
      var head: string := if s[0] != ' ' then [s[0]] else [];
      KeepWordWithoutSpaces(s[1..]);
      assert RemoveSpaces(s) == head + RemoveSpaces(s[1..]);
      KeepAppend(head, RemoveSpaces(s[1..]), IsWordChar);
      assert Keep(head, IsWordChar) == Keep([s[0]], IsWordChar);
    }
  }

  /** contract_name_from_move_or_ability: the name without spaces and
      without any other non-word character. */
  function ContractName(name: string): string
  {
    Keep(RemoveSpaces(name), IsWordChar)
  }

  /** A contract name is made of word characters only: those of the name,
      in order. */
  lemma ContractNameWordChars(name: string)
    ensures forall k :: 0 <= k < |ContractName(name)| ==> IsWordChar(ContractName(name)[k])
    ensures ContractName(name) == Keep(name, IsWordChar)
  {
    KeepWordWithoutSpaces(name);
  }

  /** A contract name is its own contract name. */
  lemma ContractNameIdempotent(name: string)
    ensures ContractName(ContractName(name)) == ContractName(name)
  {
    var c := ContractName(name);
    ContractNameWordChars(name);
    ContractNameWordChars(c);
    KeepAll(c, IsWordChar);
  }

  /** A non-empty run of non-white-space characters. */
  predicate IsWord(w: string)
  {
    w != "" && forall i :: 0 <= i < |w| ==> !IsPySpace(w[i])
  }

  /** The words of `s` when `cur` is the word read so far. */
  function WordsFrom(s: string, cur: string): (r: seq<string>)
    requires cur == "" || IsWord(cur)
    ensures forall k :: 0 <= k < |r| ==> IsWord(r[k])
    decreases |s|
  {
    if s == [] then (if cur == "" then [] else [cur])
    else if IsPySpace(s[0]) then (if cur == "" then [] else [cur]) + WordsFrom(s[1..], "")
    else WordsFrom(s[1..], cur + [s[0]])
  }

  /** Python `s.split()`: the maximal runs of non-white-space characters. */
  function Words(s: string): (r: seq<string>)
    ensures forall k :: 0 <= k < |r| ==> IsWord(r[k])
  {
    WordsFrom(s, "")
  }

  lemma {:induction false} WordsFromWord(s: string, cur: string)
    requires cur == "" || IsWord(cur)
    requires forall i :: 0 <= i < |s| ==> !IsPySpace(s[i])
    ensures WordsFrom(s, cur) == if cur + s == "" then [] else [cur + s]
    decreases |s|
  {
    if s != [] {
      WordsFromWord(s[1..], cur + [s[0]]);
      assert cur + [s[0]] + s[1..] == cur + s;
    } else {
      assert cur + s == cur;
    }
  }

  /** A non-empty string without white space is a single word; the empty
      string has none. */
  lemma WordsOfWord(s: string)
    requires forall i :: 0 <= i < |s| ==> !IsPySpace(s[i])
    ensures Words(s) == if s == "" then [] else [s]
  {
    WordsFromWord(s, "");
    assert "" + s == s;
  }

  /** `str.capitalize()`: the first character upper case, the rest lower. */
  function Capitalize(w: string): (r: string)
    ensures |r| == |w|
  {
    if w == [] then [] else [UpperChar(w[0])] + ToLower(w[1..])
  }

  function CapitalizeAll(ws: seq<string>): string
  {
    if ws == [] then "" else Capitalize(ws[0]) + CapitalizeAll(ws[1..])
  }

  /** ContractInfo._generate_variable_name: the space-free name split at
      remaining white space, camel-cased, then stripped of non-word
      characters; "contract" when there is no word at all. */
  function VariableName(name: string): (r: string)
    ensures Words(RemoveSpaces(name)) == [] ==> r == "contract"
    ensures forall k :: 0 <= k < |r| ==> IsWordChar(r[k])
  {
    var words := Words(RemoveSpaces(name));
    if words == [] then "contract"
    else Keep(ToLower(words[0]) + CapitalizeAll(words[1..]), IsWordChar)
  }

  /** For a name whose only white space is the space character, the
      variable name is the lower-cased, space-free name with non-word
      characters removed, or "contract" when the name is all spaces; it has
      no upper-case letter. */
  lemma VariableNameOfSimpleName(name: string)
    requires forall i :: 0 <= i < |name| ==> name[i] == ' ' || !IsPySpace(name[i])
    ensures var t := RemoveSpaces(name);
      VariableName(name) == if t == "" then "contract" else Keep(ToLower(t), IsWordChar)
    ensures forall k :: 0 <= k < |VariableName(name)| ==> !('A' <= VariableName(name)[k] <= 'Z')
  {
    var t := RemoveSpaces(name);
    RemoveSpacesMembers(name);
    forall i | 0 <= i < |t|
      ensures !IsPySpace(t[i])
    {
      assert t[i] in t;
    }
    WordsOfWord(t);
    if t != "" {
      assert ToLower(t) + CapitalizeAll([]) == ToLower(t);
      var r := Keep(ToLower(t), IsWordChar);
      KeepMembers(ToLower(t), IsWordChar);
      forall k | 0 <= k < |r|
        ensures !('A' <= r[k] <= 'Z')
      {
        assert r[k] in ToLower(t);
      }
    }
  }

  /** get_mon_directory_name. */
  function MonDirectoryName(monName: string): (r: string)
    ensures |r| == |monName|
    ensures forall k :: 0 <= k < |r| ==> !('A' <= r[k] <= 'Z')
  {
    ToLower(monName)
  }

  /** Lower-casing a directory name again changes nothing. */
  lemma MonDirectoryNameIdempotent(monName: string)
    ensures MonDirectoryName(MonDirectoryName(monName)) == MonDirectoryName(monName)
  {
    var d := MonDirectoryName(monName);
    assert forall k :: 0 <= k < |d| ==> LowerChar(d[k]) == d[k];
  }
}
