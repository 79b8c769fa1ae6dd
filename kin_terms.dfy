/** The words the kinship engine composes its labels from: rank words
    (`toChineseNum`), decimal numbers (`${n}` in template strings) and the fixed
    table of terms for each (generations up, generations down) pair. */
module KinTerms {
  import opened FamilyTypes
  import opened BirthOrder

  const SelfTerm: string := "本尊"
  const GenericTerm: string := "族亲"
  /** `['零','一','二','三','四','五','六','七','八','九']` */
  const Numerals: string := "零一二三四五六七八九"

  function DigitChar(d: nat): (c: char)
    requires d < 10
    ensures '0' <= c <= '9'
  {
    (48 + d) as char
  }

  predicate AllDigits(s: string)
  {
    forall i :: 0 <= i < |s| ==> '0' <= s[i] <= '9'
  }

  /** `n.toString()` for a natural number. */
  function NatToDecimal(n: nat): (s: string)
    ensures |s| >= 1 && AllDigits(s)
    ensures n >= 10 ==> |s| >= 2
    decreases n
  {
    if n < 10 then [DigitChar(n)] else NatToDecimal(n / 10) + [DigitChar(n % 10)]
  }

  /** The value a string of decimal digits denotes. */
  function DecimalValue(s: string): nat
    requires AllDigits(s)
  {
    if s == [] then 0 else 10 * DecimalValue(s[..|s| - 1]) + (s[|s| - 1] as int - 48)
  }

  /** Printing a number and reading it back gives the number. */
  lemma {:induction false} DecimalRoundTrip(n: nat)
    ensures DecimalValue(NatToDecimal(n)) == n
    decreases n
  {
    var s := NatToDecimal(n);
    if n >= 10 {
      DecimalRoundTrip(n / 10);
      assert s[..|s| - 1] == NatToDecimal(n / 10);
    }
  }

  /** `toChineseNum`: 1 is the "eldest" word, 0 and 2..9 a numeral character,
      larger numbers their decimal string. */
  function ToChineseNum(n: nat): string
  {
    if n == 1 then "大"
    else if n <= 9 then [Numerals[n]]
    else NatToDecimal(n)
  }

  /** Distinct ranks always get distinct words. */
  lemma ToChineseNumInjective(a: nat, b: nat)
    requires ToChineseNum(a) == ToChineseNum(b)
    ensures a == b
  {
    if a >= 10 && b >= 10 {
      DecimalRoundTrip(a);
      DecimalRoundTrip(b);
    } else if a < 10 && b < 10 {
      assert Numerals[0] == '零' && Numerals[1] == '一' && Numerals[2] == '二';
      assert Numerals[3] == '三' && Numerals[4] == '四' && Numerals[5] == '五';
      assert Numerals[6] == '六' && Numerals[7] == '七' && Numerals[8] == '八';
      assert Numerals[9] == '九';
    }
  }

  /** Ranks below 10 get a single word character that is not a digit; from 10 on
      the rank is written in decimal digits that read back as the rank. */
  lemma ToChineseNumForms(n: nat)
    ensures n < 10 ==> |ToChineseNum(n)| == 1 && !('0' <= ToChineseNum(n)[0] <= '9')
    ensures n >= 10 ==> AllDigits(ToChineseNum(n)) && DecimalValue(ToChineseNum(n)) == n
  {
    if n >= 10 {
      DecimalRoundTrip(n);
    } else if n != 1 {
      assert Numerals[0] == '零' && Numerals[1] == '一' && Numerals[2] == '二';
      assert Numerals[3] == '三' && Numerals[4] == '四' && Numerals[5] == '五';
      assert Numerals[6] == '六' && Numerals[7] == '七' && Numerals[8] == '八';
      assert Numerals[9] == '九';
    }
  }

  /** Target is the center's ancestor `up` generations above (`down` = 0). */
  function AncestorTerm(up: nat): string
  {
    if up == 1 then "父亲"
    else if up == 2 then "祖父"
    else if up == 3 then "曾祖"
    else if up == 4 then "高祖"
    else NatToDecimal(up) + "世祖"
  }

  /** Target is the center's descendant `down` generations below (`up` = 0);
      `rank` is the target's sibling rank, used for children only. */
  function DescendantTerm(down: nat, target: Member, rank: nat): string
  {
    if down == 1 then
      (if rank == 1 then "长" else ToChineseNum(rank)) + (if target.gender == Female then "女" else "子")
    else if down == 2 then
      (if target.gender == Female then "孙女" else "孙子")
    else NatToDecimal(down) + "世孙"
  }

  /** Elder/younger brother or sister word for siblings and cousins: a male target
      gets the brother words, every other gender the sister words. */
  function AgeSuffix(target: Member, center: Member): string
  {
    var isOlder := Before(target.birthDate, center.birthDate);
    if target.gender == Male then (if isOlder then "兄" else "弟")
    else (if isOlder then "姐" else "妹")
  }

  /** The classification by (up, down) of `calculateRelationshipLabel`.
      `father` is `memberMap.get(center.parentId)`; `rank` the target's sibling rank. */
  function KinTerm(up: nat, down: nat, target: Member, center: Member, father: Option<Member>, rank: nat): string
  {
    if down == 0 then AncestorTerm(up)
    else if up == 0 then DescendantTerm(down, target, rank)
    else if up == 1 && down == 1 then ToChineseNum(rank) + AgeSuffix(target, center)
    else if up == 2 && down == 1 then
      ToChineseNum(rank) +
      (if target.gender == Male then
         (if father.Some? && Before(target.birthDate, father.value.birthDate) then "伯" else "叔")
       else "姑")
    else if up == 1 && down == 2 then (if target.gender == Male then "侄子" else "侄女")
    else if up == 2 && down == 2 then "堂" + AgeSuffix(target, center)
    else GenericTerm
  }

  /** The ancestor words tell every generation apart: distinct heights give
      distinct words. */
  lemma AncestorTermInjective(a: nat, b: nat)
    requires a >= 1 && b >= 1 && AncestorTerm(a) == AncestorTerm(b)
    ensures a == b
  {
    if a >= 5 && b >= 5 {
      var sa, sb := NatToDecimal(a), NatToDecimal(b);
      assert sa + "世祖" == sb + "世祖";
      assert |sa| == |sb|;
      assert sa == (sa + "世祖")[..|sa|];
      assert sb == (sb + "世祖")[..|sb|];
      DecimalRoundTrip(a);
      DecimalRoundTrip(b);
    }
  }

  /** Every (up, down) pair outside the six handled shapes gets the generic term. */
  lemma KinTermFallback(up: nat, down: nat, target: Member, center: Member, father: Option<Member>, rank: nat)
    requires down != 0 && up != 0
    requires !(up <= 2 && down <= 2)
    ensures KinTerm(up, down, target, center, father, rank) == GenericTerm
  {
  }
}
