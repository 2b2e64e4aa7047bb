/** The account registry: the username and password rules, registration, and the error text. */
module Accounts {
  import opened Basics
  import opened Bits
  import opened Splitting

  /** The accounts by username, each with the hash of its password; the hash function is left open. */
  datatype Registry = Registry(hash: Text -> Text, accounts: map<Text, Text>)

  // ---------- The rules ----------

  datatype Rule =
    | UsernameAlreadyRegistered
    | UsernameUnder8Characters
    | UsernameOver32Characters
    | UsernameContainsSpecialCharacters
    | PasswordUnder12Characters
    | PasswordMissingLowercaseCharacter
    | PasswordMissingUppercaseCharacter
    | PasswordMissingSpecialCharacter
    | PasswordMissingNumber

  predicate Lower(c: byte) { 97 <= c <= 122 }
  predicate Upper(c: byte) { 65 <= c <= 90 }
  predicate Digit(c: byte) { 48 <= c <= 57 }
  predicate AlphaNumeric(c: byte) { Lower(c) || Upper(c) || Digit(c) }
  predicate UsernameChar(c: byte) { AlphaNumeric(c) || c == 95 }

  /** What every registered username looks like: letters, digits and underscores, 8 to 32 of them. */
  predicate ProperUsername(u: Text) {
    8 <= |u| <= 32 && forall c :: c in u ==> 97 <= c <= 122 || 65 <= c <= 90 || 48 <= c <= 57 || c == 95
  }

  /** What every accepted password looks like: 12 characters or more, of all four kinds. */
  predicate ProperPassword(p: Text) {
    && |p| >= 12
    && (exists c :: c in p && 97 <= c <= 122)
    && (exists c :: c in p && 65 <= c <= 90)
    && (exists c :: c in p && 48 <= c <= 57)
    && (exists c :: c in p && !(97 <= c <= 122) && !(65 <= c <= 90) && !(48 <= c <= 57))
  }

  /** Registering `u` breaks a rule on usernames; the other rules apply to new names only. */
  predicate UsernameViolates(r: Registry, u: Text, rule: Rule) {
    match rule
    case UsernameAlreadyRegistered => u in r.accounts
    case UsernameUnder8Characters => u !in r.accounts && |u| < 8
    case UsernameOver32Characters => u !in r.accounts && |u| > 32
    case UsernameContainsSpecialCharacters => u !in r.accounts && exists c :: c in u && !UsernameChar(c)
    case _ => false
  }

  predicate PasswordViolates(p: Text, rule: Rule) {
    match rule
    case PasswordUnder12Characters => |p| < 12
    case PasswordMissingLowercaseCharacter => forall c :: c in p ==> !Lower(c)
    case PasswordMissingUppercaseCharacter => forall c :: c in p ==> !Upper(c)
    case PasswordMissingSpecialCharacter => forall c :: c in p ==> AlphaNumeric(c)
    case PasswordMissingNumber => forall c :: c in p ==> !Digit(c)
    case _ => false
  }

  predicate Violates(r: Registry, u: Text, p: Text, rule: Rule) {
    UsernameViolates(r, u, rule) || PasswordViolates(p, rule)
  }

  // ---------- The error mask ----------

  const RULES: seq<Rule> := [
    UsernameAlreadyRegistered, UsernameUnder8Characters, UsernameOver32Characters,
    UsernameContainsSpecialCharacters, PasswordUnder12Characters, PasswordMissingLowercaseCharacter,
    PasswordMissingUppercaseCharacter, PasswordMissingSpecialCharacter, PasswordMissingNumber]

  /** The value of the enumerator. */
  function Bit(rule: Rule): nat {
    match rule
    case UsernameAlreadyRegistered => 1
    case UsernameUnder8Characters => 2
    case UsernameOver32Characters => 4
    case UsernameContainsSpecialCharacters => 8
    case PasswordUnder12Characters => 16
    case PasswordMissingLowercaseCharacter => 32
    case PasswordMissingUppercaseCharacter => 64
    case PasswordMissingSpecialCharacter => 128
    case PasswordMissingNumber => 256
  }

  /** The position of the enumerator's one bit. */
  function Index(rule: Rule): (k: nat)
    ensures k < 9 && RULES[k] == rule
  {
    match rule
    case UsernameAlreadyRegistered => 0
    case UsernameUnder8Characters => 1
    case UsernameOver32Characters => 2
    case UsernameContainsSpecialCharacters => 3
    case PasswordUnder12Characters => 4
    case PasswordMissingLowercaseCharacter => 5
    case PasswordMissingUppercaseCharacter => 6
    case PasswordMissingSpecialCharacter => 7
    case PasswordMissingNumber => 8
  }

  /** `mask & rule` is nonzero. */
  predicate Has(mask: int, rule: Rule) {
    BitSet(mask, Index(rule))
  }

  lemma {:induction false} BitOf(rule: Rule, k: nat)
    requires k < 9
    ensures BitSet(Bit(rule), k) <==> k == Index(rule)
  {
    match rule
    case UsernameAlreadyRegistered => OneBit(0, k);
    case UsernameUnder8Characters => OneBit(1, k);
    case UsernameOver32Characters => OneBit(2, k);
    case UsernameContainsSpecialCharacters => OneBit(3, k);
    case PasswordUnder12Characters => OneBit(4, k);
    case PasswordMissingLowercaseCharacter => OneBit(5, k);
    case PasswordMissingUppercaseCharacter => OneBit(6, k);
    case PasswordMissingSpecialCharacter => OneBit(7, k);
    case PasswordMissingNumber => OneBit(8, k);
  }

  /** Setting one rule's bit sets that bit and leaves the others as they are. */
  lemma AddRule(mask: nat, rule: Rule)
    ensures forall other :: Has(Or(mask, Bit(rule)), other) <==> Has(mask, other) || other == rule
  {
    forall other
      ensures Has(Or(mask, Bit(rule)), other) <==> Has(mask, other) || other == rule
    {
      OrBits(mask, Bit(rule), Index(other));
      BitOf(rule, Index(other));
      assert RULES[Index(other)] == other && RULES[Index(rule)] == rule;
    }
  }

  /** The mask with exactly the bits of the rules that registering `u` with `p` breaks. */
  function Errors(r: Registry, u: Text, p: Text): nat {
    Flags(seq(9, k requires 0 <= k < 9 => Violates(r, u, p, RULES[k])))
  }

  lemma ErrorsMeaning(r: Registry, u: Text, p: Text)
    ensures forall rule :: Has(Errors(r, u, p), rule) <==> Violates(r, u, p, rule)
    ensures Errors(r, u, p) < Pow2(9)
    ensures Errors(r, u, p) == 0 <==> forall rule :: !Violates(r, u, p, rule)
  {
    var on := seq(9, k requires 0 <= k < 9 => Violates(r, u, p, RULES[k]));
    FlagsBits(on, 0);
    forall rule
      ensures Has(Flags(on), rule) <==> Violates(r, u, p, rule)
    {
      FlagsBits(on, Index(rule));
    }
    if Errors(r, u, p) == 0 {
      forall rule
        ensures !Violates(r, u, p, rule)
      {
        NoBits(Index(rule));
        assert !Has(0, rule);
      }
    }
    if forall rule :: !Violates(r, u, p, rule) {
      forall k | 0 <= k < 9
        ensures on[k] == BitSet(0, k)
      {
        NoBits(k);
      }
      FlagsOfBits(0, on);
    }
  }

  /** A mask below 512 whose bits are the broken rules is that mask. */
  lemma ErrorsUnique(r: Registry, u: Text, p: Text, mask: nat)
    requires mask < Pow2(9)
    requires forall rule :: Has(mask, rule) <==> Violates(r, u, p, rule)
    ensures mask == Errors(r, u, p)
  {
    var on := seq(9, k requires 0 <= k < 9 => Violates(r, u, p, RULES[k]));
    forall k | 0 <= k < 9
      ensures on[k] == BitSet(mask, k)
    {
      RuleAt(k);
      assert Has(mask, RULES[k]) <==> Violates(r, u, p, RULES[k]);
    }
    FlagsOfBits(mask, on);
  }

  lemma RuleAt(k: nat)
    requires k < 9
    ensures Index(RULES[k]) == k
  {
  }

  // ---------- The error text ----------

  const NEWLINE: byte := 10

  const USERNAME_TAKEN_LINE: Text := Ascii("Username already registered")
  const USERNAME_SHORT_LINE: Text := Ascii("Username under 8 characters")
  const USERNAME_LONG_LINE: Text := Ascii("Username over 32 characters")
  const USERNAME_SPECIAL_LINE: Text := Ascii("Username contains special character(s)")
  const PASSWORD_SHORT_LINE: Text := Ascii("Password under 12 characters")
  const PASSWORD_LOWERCASE_LINE: Text := Ascii("Password missing a lowercase character")
  const PASSWORD_UPPERCASE_LINE: Text := Ascii("Password missing an uppercase character")
  const PASSWORD_SPECIAL_LINE: Text := Ascii("Password missing a special character")
  const PASSWORD_NUMBER_LINE: Text := Ascii("Password missing a number")

  function Line(rule: Rule): Text {
    match rule
    case UsernameAlreadyRegistered => USERNAME_TAKEN_LINE
    case UsernameUnder8Characters => USERNAME_SHORT_LINE
    case UsernameOver32Characters => USERNAME_LONG_LINE
    case UsernameContainsSpecialCharacters => USERNAME_SPECIAL_LINE
    case PasswordUnder12Characters => PASSWORD_SHORT_LINE
    case PasswordMissingLowercaseCharacter => PASSWORD_LOWERCASE_LINE
    case PasswordMissingUppercaseCharacter => PASSWORD_UPPERCASE_LINE
    case PasswordMissingSpecialCharacter => PASSWORD_SPECIAL_LINE
    case PasswordMissingNumber => PASSWORD_NUMBER_LINE
  }

  /** The line is short, is one line, and differs from the others in its tenth or twentieth character. */
  predicate Shapely(rule: Rule) {
    && 20 <= |Line(rule)| <= 39 && Free(Line(rule), NEWLINE)
    && Line(rule)[9] as int * 256 + Line(rule)[19] as int == Signature(rule)
  }

  lemma LineShape(rule: Rule)
    ensures Shapely(rule)
  {
    hide *;
    match rule
    case UsernameAlreadyRegistered => UsernameLineShape(rule);
    case UsernameUnder8Characters => UsernameLineShape(rule);
    case UsernameOver32Characters => UsernameCharactersShape(rule);
    case UsernameContainsSpecialCharacters => UsernameCharactersShape(rule);
    case PasswordUnder12Characters => PasswordLengthShape();
    case PasswordMissingLowercaseCharacter => PasswordCaseShape(rule);
    case PasswordMissingUppercaseCharacter => PasswordCaseShape(rule);
    case PasswordMissingSpecialCharacter => PasswordLineShape(rule);
    case PasswordMissingNumber => PasswordLineShape(rule);
  }

  lemma UsernameLineShape(rule: Rule)
    requires rule in {UsernameAlreadyRegistered, UsernameUnder8Characters}
    ensures Shapely(rule)
  {
    match rule
    case UsernameAlreadyRegistered => LiteralShape("Username already registered");
    case UsernameUnder8Characters => LiteralShape("Username under 8 characters");
  }

  lemma UsernameCharactersShape(rule: Rule)
    requires rule in {UsernameOver32Characters, UsernameContainsSpecialCharacters}
    ensures Shapely(rule)
  {
    match rule
    case UsernameOver32Characters => LiteralShape("Username over 32 characters");
    case UsernameContainsSpecialCharacters => LiteralShape("Username contains special character(s)");
  }

  lemma PasswordLengthShape()
    ensures Shapely(PasswordUnder12Characters)
  {
    LiteralShape("Password under 12 characters");
  }

  lemma PasswordLineShape(rule: Rule)
    requires rule in {PasswordMissingSpecialCharacter, PasswordMissingNumber}
    ensures Shapely(rule)
  {
    match rule
    case PasswordMissingSpecialCharacter => LiteralShape("Password missing a special character");
    case PasswordMissingNumber => LiteralShape("Password missing a number");
  }

  lemma PasswordCaseShape(rule: Rule)
    requires rule in {PasswordMissingLowercaseCharacter, PasswordMissingUppercaseCharacter}
    ensures Shapely(rule)
  {
    match rule
    case PasswordMissingLowercaseCharacter => LiteralShape("Password missing a lowercase character");
    case PasswordMissingUppercaseCharacter => LiteralShape("Password missing an uppercase character");
  }

  lemma LiteralShape(s: string)
    requires forall i :: 0 <= i < |s| ==> s[i] as int < 256 && s[i] != '\n'
    ensures Free(Ascii(s), NEWLINE)
    ensures |s| >= 20 ==> Ascii(s)[9] as int == s[9] as int && Ascii(s)[19] as int == s[19] as int
  {
  }

  function Signature(rule: Rule): int {
    match rule
    case UsernameAlreadyRegistered => 'a' as int * 256 + 'g' as int
    case UsernameUnder8Characters => 'u' as int * 256 + 'a' as int
    case UsernameOver32Characters => 'o' as int * 256 + 'a' as int
    case UsernameContainsSpecialCharacters => 'c' as int * 256 + 'p' as int
    case PasswordUnder12Characters => 'u' as int * 256 + 'h' as int
    case PasswordMissingLowercaseCharacter => 'm' as int * 256 + 'l' as int
    case PasswordMissingUppercaseCharacter => 'm' as int * 256 + ' ' as int
    case PasswordMissingSpecialCharacter => 'm' as int * 256 + 's' as int
    case PasswordMissingNumber => 'm' as int * 256 + 'n' as int
  }

  lemma LinesDiffer(a: Rule, b: Rule)
    requires Line(a) == Line(b)
    ensures a == b
  {
    LineShape(a);
    LineShape(b);
    hide Line;
  }

  /** The lines of those of the first `n` rules whose bit is set, in the order of the bits. */
  function Listed(error: int, n: nat): (lines: seq<Text>)
    requires n <= 9
    ensures |lines| <= n
  {
    if n == 0 then []
    else if Has(error, RULES[n - 1]) then Listed(error, n - 1) + [Line(RULES[n - 1])]
    else Listed(error, n - 1)
  }

  function ErrorText(error: int): Text {
    Join(Listed(error, 9), NEWLINE)
  }

  lemma {:induction false} ListedLines(error: int, n: nat)
    requires n <= 9
    ensures AllFree(Listed(error, n), NEWLINE)
    ensures forall i :: 0 <= i < |Listed(error, n)| ==> |Listed(error, n)[i]| <= 39
    ensures Listed(error, n) != [[]]
    ensures forall rule :: Line(rule) in Listed(error, n) <==> Has(error, rule) && Index(rule) < n
  {
    hide Line, Has, Index, Free, Signature;
    if n > 0 {
      var last := RULES[n - 1];
      ListedLines(error, n - 1);
      LineShape(last);
      RuleAt(n - 1);
      forall rule
        ensures Line(rule) in Listed(error, n) <==> Has(error, rule) && Index(rule) < n
      {
        if Line(rule) == Line(last) {
          LinesDiffer(rule, last);
        }
      }
    }
  }

  /** The mask that an error text stands for. */
  function ErrorMask(text: Text): nat {
    var lines := if text == [] then [] else Split(text, NEWLINE);
    Flags(seq(9, k requires 0 <= k < 9 => Line(RULES[k]) in lines))
  }

  /** The text lists, one per line, exactly the rules whose bit is set. */
  lemma ErrorTextLines(error: int)
    ensures (if ErrorText(error) == [] then [] else Split(ErrorText(error), NEWLINE)) == Listed(error, 9)
    ensures forall rule :: Line(rule) in Listed(error, 9) <==> Has(error, rule)
  {
    var lines := Listed(error, 9);
    ListedLines(error, 9);
    if lines != [] {
      JoinThenSplit(lines, NEWLINE);
      assert ErrorText(error) == [] ==> lines == [[]];
    }
  }

  /** Every mask of rules can be recovered from its error text. */
  lemma ErrorTextThenMask(error: nat)
    requires error < Pow2(9)
    ensures ErrorMask(ErrorText(error)) == error
  {
    ErrorTextLines(error);
    var lines := Listed(error, 9);
    var on := seq(9, k requires 0 <= k < 9 => Line(RULES[k]) in lines);
    forall k | 0 <= k < 9
      ensures on[k] == BitSet(error, k)
    {
      RuleAt(k);
      assert Line(RULES[k]) in lines <==> Has(error, RULES[k]);
    }
    FlagsOfBits(error, on);
  }

  lemma {:induction false} JoinBound(parts: seq<Text>, sep: byte, n: nat)
    requires forall i :: 0 <= i < |parts| ==> |parts[i]| <= n
    ensures |Join(parts, sep)| <= |parts| * (n + 1)
  {
    if |parts| > 1 {
      JoinBound(parts[1..], sep, n);
      assert (|parts| - 1) * (n + 1) + n + 1 == |parts| * (n + 1);
    }
  }

  lemma ErrorTextBound(error: int)
    ensures |ErrorText(error)| <= 360
  {
    ListedLines(error, 9);
    JoinBound(Listed(error, 9), NEWLINE, 39);
  }

  // ---------- The registry ----------

  /** The mask that registering returns, and the registry afterwards. */
  function Registered(r: Registry, u: Text, p: Text): (nat, Registry) {
    var errors := Errors(r, u, p);
    (errors, if errors == 0 then r.(accounts := Emplace(r.accounts, u, r.hash(p))) else r)
  }

  predicate MatchingPassword(r: Registry, u: Text, p: Text) {
    u in r.accounts && r.accounts[u] == r.hash(p)
  }

  /**
   Registering returns zero exactly when no rule is broken, that is, when the name is new and proper and
   the password is proper. It then adds the one account, under the hash of the given password; otherwise
   it changes nothing.
   */
  lemma RegisteredMeaning(r: Registry, u: Text, p: Text)
    ensures var (errors, r') := Registered(r, u, p);
            && (errors == 0 <==> forall rule :: !Violates(r, u, p, rule))
            && (errors == 0 <==> u !in r.accounts && ProperUsername(u) && ProperPassword(p))
            && r' == (if errors == 0 then r.(accounts := r.accounts[u := r.hash(p)]) else r)
  {
    ErrorsMeaning(r, u, p);
    RegisteredMask(r, u, p);
    hide Violates, Errors, ProperUsername, ProperPassword;
  }

  // ---------- What registering asks for, without the rules ----------

  /** What is wrong with registering `u` with `p`, in the order of the enumerators. */
  function Faults(r: Registry, u: Text, p: Text): (faults: seq<bool>)
    ensures |faults| == 9
  {
    [u in r.accounts,
     u !in r.accounts && |u| < 8,
     u !in r.accounts && |u| > 32,
     u !in r.accounts && exists c :: c in u && !(97 <= c <= 122 || 65 <= c <= 90 || 48 <= c <= 57 || c == 95),
     |p| < 12,
     forall c :: c in p ==> !(97 <= c <= 122),
     forall c :: c in p ==> !(65 <= c <= 90),
     forall c :: c in p ==> 97 <= c <= 122 || 65 <= c <= 90 || 48 <= c <= 57,
     forall c :: c in p ==> !(48 <= c <= 57)]
  }

  lemma FaultsAreViolations(r: Registry, u: Text, p: Text)
    ensures forall k :: 0 <= k < 9 ==> (Faults(r, u, p)[k] <==> Violates(r, u, p, RULES[k]))
  {
  }

  function One(on: bool): nat {
    if on then 1 else 0
  }

  function FlagsAt(on: seq<bool>, k: nat): nat
    requires k <= |on|
  {
    Flags(on[k..])
  }

  lemma FlagsFrom(on: seq<bool>, k: nat)
    requires k < |on|
    ensures FlagsAt(on, k) == One(on[k]) + 2 * FlagsAt(on, k + 1)
  {
    assert on[k..][1..] == on[k + 1..];
  }

  lemma FlagsAtEnds(on: seq<bool>)
    ensures FlagsAt(on, 0) == Flags(on) && FlagsAt(on, |on|) == 0
  {
    assert on[0..] == on && on[|on|..] == [];
  }

  lemma NineFlags(on: seq<bool>)
    requires |on| == 9
    ensures Flags(on)
         == One(on[0]) + 2 * One(on[1]) + 4 * One(on[2]) + 8 * One(on[3]) + 16 * One(on[4])
          + 32 * One(on[5]) + 64 * One(on[6]) + 128 * One(on[7]) + 256 * One(on[8])
  {
    hide Flags, FlagsAt, One;
    FlagsAtEnds(on);
    FlagsFrom(on, 0);
    FlagsFrom(on, 1);
    FlagsFrom(on, 2);
    FlagsFrom(on, 3);
    FlagsFrom(on, 4);
    FlagsFrom(on, 5);
    FlagsFrom(on, 6);
    FlagsFrom(on, 7);
    FlagsFrom(on, 8);
  }

  /** The mask that registering returns, fault by fault, and when it returns zero. */
  lemma RegisteredMask(r: Registry, u: Text, p: Text)
    ensures (var faults := Faults(r, u, p);
             Registered(r, u, p).0
             == One(faults[0]) + 2 * One(faults[1]) + 4 * One(faults[2]) + 8 * One(faults[3]) + 16 * One(faults[4])
                + 32 * One(faults[5]) + 64 * One(faults[6]) + 128 * One(faults[7]) + 256 * One(faults[8]))
    ensures Registered(r, u, p).0 == 0 <==> u !in r.accounts && ProperUsername(u) && ProperPassword(p)
  {
    FaultsAreViolations(r, u, p);
    NoFaults(r, u, p);
    var faults := Faults(r, u, p);
    hide Flags, Faults, Violates, ProperUsername, ProperPassword;
    assert faults == seq(9, k requires 0 <= k < 9 => Violates(r, u, p, RULES[k]));
    NineFlags(faults);
    assert Errors(r, u, p) == Flags(faults);
  }

  lemma NoFaults(r: Registry, u: Text, p: Text)
    ensures (forall k :: 0 <= k < 9 ==> !Faults(r, u, p)[k])
       <==> u !in r.accounts && ProperUsername(u) && ProperPassword(p)
  {
    var f := Faults(r, u, p);
    if forall k :: 0 <= k < 9 ==> !f[k] {
      assert !f[0] && !f[1] && !f[2] && !f[3] && !f[4] && !f[5] && !f[6] && !f[7] && !f[8];
    }
  }

  /** Those of the lines that are on. */
  function Chosen(on: seq<bool>, lines: seq<Text>): seq<Text>
    requires |on| == |lines|
  {
    if on == [] then []
    else
      var k := |on| - 1;
      Chosen(on[..k], lines[..k]) + if on[k] then [lines[k]] else []
  }

  lemma {:induction false} ListedIsChosen(error: int, on: seq<bool>, lines: seq<Text>)
    requires |on| == |lines| <= 9
    requires forall k :: 0 <= k < |on| ==> (on[k] <==> Has(error, RULES[k])) && lines[k] == Line(RULES[k])
    ensures Listed(error, |on|) == Chosen(on, lines)
  {
    hide Line, Has;
    if on != [] {
      ListedIsChosen(error, on[..|on| - 1], lines[..|on| - 1]);
    }
  }

  /** The lines of the error text of a refused registration: one for each fault, in the order of the enumerators. */
  lemma RefusalLines(r: Registry, u: Text, p: Text)
    requires Registered(r, u, p).0 != 0
    ensures Split(ErrorText(Registered(r, u, p).0), 10)
         == Chosen(Faults(r, u, p),
                   [USERNAME_TAKEN_LINE, USERNAME_SHORT_LINE, USERNAME_LONG_LINE, USERNAME_SPECIAL_LINE,
                    PASSWORD_SHORT_LINE, PASSWORD_LOWERCASE_LINE, PASSWORD_UPPERCASE_LINE, PASSWORD_SPECIAL_LINE,
                    PASSWORD_NUMBER_LINE])
  {
    RefusalIsListed(r, u, p);
    FaultsAreViolations(r, u, p);
    ErrorsMeaning(r, u, p);
    hide Split, Faults, Ascii, Has, Violates, Errors, Listed, ErrorText, Chosen;
    var lines := seq(9, k requires 0 <= k < 9 => Line(RULES[k]));
    assert lines == [Line(RULES[0]), Line(RULES[1]), Line(RULES[2]), Line(RULES[3]), Line(RULES[4]),
                     Line(RULES[5]), Line(RULES[6]), Line(RULES[7]), Line(RULES[8])];
    ListedIsChosen(Registered(r, u, p).0, Faults(r, u, p), lines);
  }

  lemma RefusalIsListed(r: Registry, u: Text, p: Text)
    requires Registered(r, u, p).0 != 0
    ensures Split(ErrorText(Registered(r, u, p).0), 10) == Listed(Registered(r, u, p).0, 9)
  {
    hide Split, Violates, Has, Errors, Listed, ErrorText, Line;
    var error := Registered(r, u, p).0;
    ErrorsMeaning(r, u, p);
    ErrorTextLines(error);
    var rule :| Violates(r, u, p, rule);
    assert Line(rule) in Listed(error, 9);
  }

  class AccountRegistry {
    const hash: Text -> Text
    var accounts: map<Text, Text>

    constructor (hash: Text -> Text)
      ensures this.hash == hash && accounts == map[]
    {
      this.hash := hash;
      accounts := map[];
    }

    function Contents(): Registry
      reads this
    {
      Registry(hash, accounts)
    }

    method ValidateUsername(username: Text) returns (errors: nat)
      ensures errors < Pow2(9)
      ensures forall rule :: Has(errors, rule) <==> UsernameViolates(Contents(), username, rule)
    {
      hide BitSet, Has, Or;
      errors := 0;
      NoRules();
      if username in accounts {
        errors := AddIf(true, errors, UsernameAlreadyRegistered);
      } else {
        if |username| < 8 {
          errors := AddIf(true, errors, UsernameUnder8Characters);
        } else {
          errors := AddIf(|username| > 32, errors, UsernameOver32Characters);
        }
        errors := AddIf(exists c :: c in username && !UsernameChar(c), errors, UsernameContainsSpecialCharacters);
      }
    }

    method ValidatePassword(password: Text) returns (errors: nat)
      ensures errors < Pow2(9)
      ensures forall rule :: Has(errors, rule) <==> PasswordViolates(password, rule)
    {
      hide BitSet, Has, Or, Pow2, Lower, Upper, Digit, AlphaNumeric;
      errors := 0;
      NoRules();
      errors := AddIf(|password| < 12, errors, PasswordUnder12Characters);
      errors := AddIf(forall c :: c in password ==> !Lower(c), errors, PasswordMissingLowercaseCharacter);
      errors := AddIf(forall c :: c in password ==> !Upper(c), errors, PasswordMissingUppercaseCharacter);
      errors := AddIf(forall c :: c in password ==> AlphaNumeric(c), errors, PasswordMissingSpecialCharacter);
      errors := AddIf(forall c :: c in password ==> !Digit(c), errors, PasswordMissingNumber);
    }

    method Register(username: Text, password: Text) returns (errors: nat)
      modifies this
      ensures (errors, Contents()) == Registered(old(Contents()), username, password)
    {
      var u := ValidateUsername(username);
      var p := ValidatePassword(password);
      errors := Or(u, p);
      OrBound(u, p, 9);
      forall rule
        ensures Has(errors, rule) <==> Violates(Contents(), username, password, rule)
      {
        OrBits(u, p, Index(rule));
        assert Has(u, rule) <==> UsernameViolates(Contents(), username, rule);
      }
      ErrorsUnique(Contents(), username, password, errors);
      if errors == 0 {
        accounts := Emplace(accounts, username, hash(password));
      }
    }

    method Contains(username: Text) returns (found: bool)
      ensures found <==> username in accounts
    {
      found := username in accounts;
    }

    method MatchesPassword(username: Text, password: Text) returns (matches: bool)
      ensures matches <==> MatchingPassword(Contents(), username, password)
    {
      matches := false;
      var found := Contains(username);
      if found && accounts[username] == hash(password) {
        matches := true;
      }
    }
  }

  lemma NoRules()
    ensures 0 < Pow2(9)
    ensures forall rule :: !Has(0, rule)
  {
    forall rule
      ensures !Has(0, rule)
    {
      NoBits(Index(rule));
    }
  }

  /** `if (found) errors |= rule;` */
  method AddIf(found: bool, errors: nat, rule: Rule) returns (r: nat)
    requires errors < Pow2(9)
    ensures r < Pow2(9)
    ensures forall other :: Has(r, other) <==> Has(errors, other) || (found && other == rule)
  {
    r := errors;
    if found {
      r := Or(errors, Bit(rule));
      AddRule(errors, rule);
      OrBound(errors, Bit(rule), 9);
    }
  }

  function Terminated(lines: seq<Text>): Text {
    if lines == [] then [] else Terminated(lines[..|lines| - 1]) + lines[|lines| - 1] + [NEWLINE]
  }

  lemma {:induction false} TerminatedIsJoin(lines: seq<Text>)
    ensures Terminated(lines) == if lines == [] then [] else Join(lines, NEWLINE) + [NEWLINE]
  {
    if lines != [] {
      var front, last := lines[..|lines| - 1], lines[|lines| - 1];
      assert lines == front + [last];
      TerminatedIsJoin(front);
      assert Terminated(lines) == Terminated(front) + last + [NEWLINE];
      hide Join, Terminated;
      if front != [] {
        JoinSnoc(front, last, NEWLINE);
      } else {
        JoinOne(last, NEWLINE);
      }
    }
  }

  method ErrorString(error: int) returns (output: Text)
    ensures output == ErrorText(error)
  {
    output := [];
    assert output == Terminated(Listed(error, 0));
    assert ErrorText(error) == Join(Listed(error, 9), NEWLINE) && Join([], NEWLINE) == [];
    hide Listed, Terminated, Join, ErrorText;
    output := AppendLine(output, error, 0);
    output := AppendLine(output, error, 1);
    output := AppendLine(output, error, 2);
    output := AppendLine(output, error, 3);
    output := AppendLine(output, error, 4);
    output := AppendLine(output, error, 5);
    output := AppendLine(output, error, 6);
    output := AppendLine(output, error, 7);
    output := AppendLine(output, error, 8);
    TerminatedIsJoin(Listed(error, 9));
    if |output| > 0 {
      assert (ErrorText(error) + [NEWLINE])[..|ErrorText(error)|] == ErrorText(error);
      output := output[..|output| - 1];
    }
  }

  /** `if (error & rule) output += line;` for the rule with the given position. */
  method AppendLine(output: Text, error: int, k: nat) returns (r: Text)
    requires k < 9 && output == Terminated(Listed(error, k))
    ensures r == Terminated(Listed(error, k + 1))
  {
    r := output;
    if Has(error, RULES[k]) {
      r := r + Line(RULES[k]) + [NEWLINE];
      assert Listed(error, k + 1)[..|Listed(error, k)|] == Listed(error, k);
    }
  }
}
