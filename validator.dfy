/**
 * The address validator `is_valid_ip`: a dotted string is accepted when it
 * splits on '.' into exactly four digit strings whose values are at most 255,
 * and it is not one of three reserved literals.
 */
module Validator {
  import opened Text

  /** The literals rejected even though their four parts are in range. */
  const Reserved: set<string> := {"0.0.0.0", "127.0.0.1", "255.255.255.255"}

  /** One part passes the loop body: `part.isdigit()` and `int(part)` in 0..255. */
  predicate IsOctet(part: string) {
    IsDigits(part) && Value(part) <= 255
  }

  /** The loop over the parts, which returns false at the first bad part. */
  predicate AllOctets(parts: seq<string>) {
    parts == [] || (IsOctet(parts[0]) && AllOctets(parts[1..]))
  }

  /**
   * `is_valid_ip(ip)`. Whatever it accepts is made of digits and dots only,
   * at least seven characters long.
   */
  function IsValidIp(ip: string): (valid: bool)
    ensures valid ==> 7 <= |ip| && forall k :: 0 <= k < |ip| ==> IsDigit(ip[k]) || ip[k] == '.'
  {
    var parts := Split(ip, '.');
    JoinSplit(ip, '.');
    AllOctetsIff(parts);
    if |parts| == 4 && AllOctets(parts) then
      JoinOfDigits(parts, '.');
      ip !in Reserved
    else false
  }

  /** The early-return loop accepts exactly when every part is an octet. */
  lemma {:induction false} AllOctetsIff(parts: seq<string>)
    ensures AllOctets(parts) <==> forall k :: 0 <= k < |parts| ==> IsOctet(parts[k])
  {
    if parts != [] {
      AllOctetsIff(parts[1..]);
      assert forall k :: 1 <= k < |parts| ==> parts[k] == parts[1..][k - 1];
    }
  }

  /**
   * The validator's conditions one by one: four parts after splitting on '.',
   * each non-empty and digits only, each of value at most 255, and the string
   * not a reserved literal. Nothing else is checked.
   */
  lemma ValidIpConditions(ip: string)
    ensures IsValidIp(ip) <==>
      var parts := Split(ip, '.');
      && |parts| == 4
      && (forall k :: 0 <= k < 4 ==> IsDigits(parts[k]) && Value(parts[k]) <= 255)
      && ip !in Reserved
  {
    AllOctetsIff(Split(ip, '.'));
  }

  /**
   * An independent description of the accepted strings: exactly the joins of
   * four octets with '.', other than the reserved literals.
   */
  lemma ValidIpIsJoinOfOctets(ip: string)
    ensures IsValidIp(ip) <==>
      ip !in Reserved &&
      exists parts: seq<string> :: |parts| == 4 && (forall k :: 0 <= k < 4 ==> IsOctet(parts[k])) && Join(parts, '.') == ip
  {
    var split := Split(ip, '.');
    AllOctetsIff(split);
    if IsValidIp(ip) {
      JoinSplit(ip, '.');
      assert Join(split, '.') == ip;
    }
    if ip !in Reserved && exists parts: seq<string> :: |parts| == 4 && (forall k :: 0 <= k < 4 ==> IsOctet(parts[k])) && Join(parts, '.') == ip {
      var parts: seq<string> :| |parts| == 4 && (forall k :: 0 <= k < 4 ==> IsOctet(parts[k])) && Join(parts, '.') == ip;
      assert forall k :: 0 <= k < |parts| ==> '.' !in parts[k] by {
        forall k | 0 <= k < |parts| ensures '.' !in parts[k] {
          assert IsDigits(parts[k]);
        }
      }
      SplitJoin(parts, '.');
      AllOctetsIff(parts);
    }
  }

  /** Leading zeros are accepted: only a part's value is checked. */
  lemma {:induction false} PaddedOctet(part: string)
    requires IsOctet(part)
    ensures IsOctet(['0'] + part)
  {
    LeadingZeroValue(part);
  }

  /** The examples of the validator's behaviour. */
  /** Wrong part counts, empty parts and non-digits are rejected. */
  lemma MalformedExamples()
    ensures !IsValidIp("1.2.3") && !IsValidIp("1.2.3.4.5")
    ensures !IsValidIp("1..2.3") && !IsValidIp("1.2.3.a")
  {
    assert Split("1..2.3", '.')[1] == "";
    assert Split("1.2.3.a", '.')[3] == "a";
  }

  /** A part above 255 is rejected; 999 comes from a token the scanner finds. */
  lemma OutOfRangeExamples()
    ensures !IsValidIp("256.1.1.1") && !IsValidIp("999.1.1.1")
  {
    assert Split("256.1.1.1", '.')[0] == "256";
    assert "256"[..2] == "25" && "25"[..1] == "2";
    assert Value("256") == 256;
    assert Split("999.1.1.1", '.')[0] == "999";
    assert "999"[..2] == "99" && "99"[..1] == "9";
    assert Value("999") == 999;
  }

  /** An ordinary address passes. */
  lemma AcceptedExample()
    ensures IsValidIp("1.2.3.4")
  {
    var p := Split("1.2.3.4", '.');
    assert p[0] == "1" && p[1] == "2" && p[2] == "3" && p[3] == "4";
    assert IsOctet("1") && IsOctet("2") && IsOctet("3") && IsOctet("4");
    AllOctetsIff(p);
  }

  /** Another ordinary address passes. */
  lemma SecondAcceptedExample()
    ensures IsValidIp("5.6.7.8")
  {
    var p := Split("5.6.7.8", '.');
    assert p[0] == "5" && p[1] == "6" && p[2] == "7" && p[3] == "8";
    assert IsOctet("5") && IsOctet("6") && IsOctet("7") && IsOctet("8");
    AllOctetsIff(p);
  }

  /** Leading zeros pass: only each part's value is checked. */
  lemma LeadingZerosExample()
    ensures IsValidIp("01.002.3.4")
  {
    var q := Split("01.002.3.4", '.');
    assert q[0] == "01" && q[1] == "002" && q[2] == "3" && q[3] == "4";
    PaddedValues();
  }

  /** The values of the padded parts used above. */
  lemma PaddedValues()
    ensures Value("01") == 1 && Value("002") == 2
  {
    assert "002"[..2] == "00" && "00"[..1] == "0" && "01"[..1] == "0";
    assert Value("0") == 0;
  }

  /** The reserved literals are rejected although their parts are in range. */
  lemma ReservedRejected()
    ensures forall r :: r in Reserved ==> !IsValidIp(r)
  {
  }
}
