/** Input validation and normalisation of the request models: user keys,
    feed URLs and label lists. */
module Models {
  import opened Wrappers
  import opened Text
  import Config

  /** Lower-case ASCII letters followed by the digits. */
  const KeyAlphabet: string := "abcdefghijklmnopqrstuvwxyz0123456789"

  /** Longest key the user models accept. */
  const MaxKeyLength: nat := 8

  /** A key as the reader stores it: 1 to 8 lower-case letters or digits. */
  predicate IsValidKey(k: string) {
    1 <= |k| <= MaxKeyLength && IsAlnum(k) && IsLower(k)
  }

  /** A fresh random key; `draw(i)` is the index the random source picks for
      the i-th character. Whatever it picks, the key has the configured length
      and uses only lower-case letters and digits. */
  function GenerateUserKey(draw: nat -> nat): (key: string)
    ensures |key| == Config.UserKeyLength
    ensures forall i | 0 <= i < |key| :: key[i] in KeyAlphabet
  {
    seq(Config.UserKeyLength, i requires 0 <= i < Config.UserKeyLength => KeyAlphabet[draw(i) % |KeyAlphabet|])
  }

  datatype KeyError = KeyLengthOutOfRange | KeyNotAlphanumeric

  /** The `key` field of the user models: the length bounds are checked first,
      then the alphanumeric rule; an accepted key is returned lower-cased. */
  function ValidateKey(v: string): (r: Result<string, KeyError>)
    ensures r.Success? <==> 1 <= |v| <= MaxKeyLength && IsAlnum(v)
    ensures r.Failure? && !(1 <= |v| <= MaxKeyLength) ==> r.error == KeyLengthOutOfRange
    ensures r.Success? ==> IsValidKey(r.value) && |r.value| == |v|
    ensures r.Success? ==> forall i | 0 <= i < |v| :: r.value[i] == LowerChar(v[i])
  {
    if !(1 <= |v| <= MaxKeyLength) then Failure(KeyLengthOutOfRange)
    else if !IsAlnum(v) then Failure(KeyNotAlphanumeric)
    else
      LowerFacts(v);
      Success(Lower(v))
  }

  /** Validating an accepted key again accepts it unchanged. */
  lemma ValidateKeyIdempotent(v: string)
    requires ValidateKey(v).Success?
    ensures ValidateKey(ValidateKey(v).value) == ValidateKey(v)
  {
    var k := ValidateKey(v).value;
    LowerOfLower(k);
  }

  /** The alphabet holds only lower-case ASCII letters and digits. */
  lemma KeyAlphabetIsLowerAlnum()
    ensures forall c | c in KeyAlphabet :: 'a' <= c <= 'z' || '0' <= c <= '9'
  {
  }

  /** Every generated key passes validation unchanged. */
  lemma GeneratedKeyIsValid(draw: nat -> nat)
    ensures ValidateKey(GenerateUserKey(draw)) == Success(GenerateUserKey(draw))
  {
    var k := GenerateUserKey(draw);
    KeyAlphabetIsLowerAlnum();
    assert forall i | 0 <= i < |k| :: IsAlnumChar(k[i]) && !('A' <= k[i] <= 'Z');
    LowerOfLower(k);
  }

  /** A label as stored: stripped, lower-case and non-empty. */
  predicate IsNormalLabel(l: string) {
    l != [] && IsStripped(l) && IsLower(l)
  }

  /** One label through `label.strip().lower()`: the stripped label with each
      character lower-cased; empty exactly when the label strips to nothing,
      which is when the comprehension drops it. */
  function NormalizeLabel(l: string): (r: string)
    ensures |r| == |Strip(l)| && forall i | 0 <= i < |r| :: r[i] == LowerChar(Strip(l)[i])
    ensures r == [] <==> Strip(l) == []
    ensures r != [] ==> IsNormalLabel(r)
  {
    LowerFacts(Strip(l));
    Lower(Strip(l))
  }

  /** What the comprehension keeps of one label: its normal form, or nothing. */
  function Keep(l: string): (r: seq<string>)
    ensures |r| <= 1
  {
    var n := NormalizeLabel(l);
    if n == [] then [] else [n]
  }

  /** `validate_labels` of the feed models: each label is stripped and
      lower-cased, and labels that strip to nothing are dropped. */
  function NormalizeLabels(v: seq<string>): (r: seq<string>)
    ensures |r| <= |v|
  {
    if v == [] then [] else Keep(v[0]) + NormalizeLabels(v[1..])
  }

  /** Each label that survives normalisation is some input label that does
      not strip to nothing, stripped and lower-cased. */
  lemma NormalizeLabelsFromInput(v: seq<string>)
    ensures forall l | l in NormalizeLabels(v) ::
      exists i | 0 <= i < |v| :: Strip(v[i]) != [] && l == NormalizeLabel(v[i])
  {
    forall l | l in NormalizeLabels(v)
      ensures exists i | 0 <= i < |v| :: Strip(v[i]) != [] && l == NormalizeLabel(v[i])
    {
      var i := SourceOf(v, l);
    }
  }

  /** The position of the input label a surviving label comes from. */
  lemma {:induction false} SourceOf(v: seq<string>, l: string) returns (i: nat)
    requires l in NormalizeLabels(v)
    ensures i < |v| && Strip(v[i]) != [] && l == NormalizeLabel(v[i])
  {
    if l in Keep(v[0]) {
      i := 0;
    } else {
      var j := SourceOf(v[1..], l);
      i := j + 1;
    }
  }

  /** Every input label that does not strip to nothing survives
      normalisation, stripped and lower-cased. */
  lemma {:induction false} NormalizeLabelsKeepsInput(v: seq<string>)
    ensures forall i | 0 <= i < |v| && Strip(v[i]) != [] :: NormalizeLabel(v[i]) in NormalizeLabels(v)
  {
    if v != [] {
      var tail := v[1..];
      NormalizeLabelsKeepsInput(tail);
      assert NormalizeLabels(v) == Keep(v[0]) + NormalizeLabels(tail);
      forall i | 0 <= i < |v| && Strip(v[i]) != []
        ensures NormalizeLabel(v[i]) in NormalizeLabels(v)
      {
        if i > 0 {
          assert tail[i - 1] == v[i];
          assert NormalizeLabel(tail[i - 1]) in NormalizeLabels(tail);
        }
      }
    }
  }

  /** Every label that survives normalisation is normal. */
  lemma {:induction false} NormalizeLabelsNormal(v: seq<string>)
    ensures forall l | l in NormalizeLabels(v) :: IsNormalLabel(l)
  {
    if v != [] {
      NormalizeLabelsNormal(v[1..]);
    }
  }

  /** A label without a comma keeps none after normalisation. */
  lemma NormalizeLabelNoComma(l: string)
    requires ',' !in l
    ensures ',' !in NormalizeLabel(l)
  {
    var s := Strip(l);
    assert ',' !in s;
    forall i | 0 <= i < |s| ensures Lower(s)[i] != ',' {
      assert s[i] in s;
    }
  }

  /** Labels split at commas contain no comma after normalisation either. */
  lemma {:induction false} NormalizeLabelsNoComma(v: seq<string>)
    requires forall x | x in v :: ',' !in x
    ensures forall l | l in NormalizeLabels(v) :: ',' !in l
  {
    if v != [] {
      assert v[0] in v;
      NormalizeLabelNoComma(v[0]);
      NormalizeLabelsNoComma(v[1..]);
    }
  }

  /** Normalising a concatenation normalises each part in place: the labels
      that survive keep their input order. */
  lemma {:induction false} NormalizeLabelsAppend(a: seq<string>, b: seq<string>)
    ensures NormalizeLabels(a + b) == NormalizeLabels(a) + NormalizeLabels(b)
  {
    if a == [] {
      assert a + b == b;
    } else {
      assert (a + b)[0] == a[0];
      assert (a + b)[1..] == a[1..] + b;
      NormalizeLabelsAppend(a[1..], b);
    }
  }

  /** A label that is already normal is kept as it is. */
  lemma KeepNormal(l: string)
    requires IsNormalLabel(l)
    ensures Keep(l) == [l]
  {
    StripStripped(l);
    LowerOfLower(l);
  }

  /** A list of labels that are already normal is left as it is. */
  lemma {:induction false} NormalizeKeepsNormal(v: seq<string>)
    requires forall l | l in v :: IsNormalLabel(l)
    ensures NormalizeLabels(v) == v
  {
    if v != [] {
      var head, tail := v[0], v[1..];
      assert head in v;
      KeepNormal(head);
      assert forall l | l in tail :: l in v;
      NormalizeKeepsNormal(tail);
      HeadTail(v);
    }
  }

  /** A non-empty list is its head followed by its tail. */
  lemma HeadTail(v: seq<string>)
    requires v != []
    ensures v == [v[0]] + v[1..]
  {
  }

  /** Normalising twice is normalising once. */
  lemma NormalizeLabelsIdempotent(v: seq<string>)
    ensures NormalizeLabels(NormalizeLabels(v)) == NormalizeLabels(v)
  {
    NormalizeLabelsNormal(v);
    NormalizeKeepsNormal(NormalizeLabels(v));
  }

  /** `get_labels` of the add-feed and update-labels forms: the empty string
      gives no labels, anything else is split on commas and normalised. */
  function GetLabels(form: string): (r: seq<string>)
    ensures form == [] ==> r == []
    ensures forall l | l in r :: IsNormalLabel(l) && ',' !in l
  {
    if form == [] then []
    else
      NormalizeLabelsNormal(Split(form, ','));
      NormalizeLabelsNoComma(Split(form, ','));
      NormalizeLabels(Split(form, ','))
  }

  /** The empty-string guard of `get_labels` changes nothing: splitting and
      normalising `""` already gives no labels. */
  lemma GetLabelsIsSplitNormalize(form: string)
    ensures GetLabels(form) == NormalizeLabels(Split(form, ','))
  {
    if form == [] {
      assert ',' !in form;
      assert Split(form, ',') == [form];
      assert Keep(form) == [];
      assert [form][1..] == [];
    }
  }

  /** Normal labels written out comma-separated are read back unchanged. */
  lemma LabelsFormRoundTrip(labels: seq<string>)
    requires forall l | l in labels :: IsNormalLabel(l) && ',' !in l
    ensures GetLabels(Join(labels, ',')) == labels
  {
    if labels != [] {
      assert forall i | 0 <= i < |labels| :: labels[i] in labels;
      SplitJoin(labels, ',');
      NormalizeKeepsNormal(labels);
      assert Join(labels, ',') != [] by {
        if |labels| > 1 {
          assert |Join(labels, ',')| >= |labels[0]|;
        }
      }
    }
  }

  datatype FeedCreate = FeedCreate(url: string, labels: seq<string>)

  /** The feed-creation model: the URL must be non-empty; labels are normalised. */
  function ValidateFeedCreate(url: string, labels: seq<string>): (r: Result<FeedCreate, string>)
    ensures r.Success? <==> url != []
    ensures r.Success? ==> r.value.url == url && r.value.labels == NormalizeLabels(labels)
    ensures r.Success? ==> forall l | l in r.value.labels :: IsNormalLabel(l)
    ensures r.Failure? ==> r.error == "url: String should have at least 1 character"
  {
    if url == [] then Failure("url: String should have at least 1 character")
    else
      NormalizeLabelsNormal(labels);
      Success(FeedCreate(url, NormalizeLabels(labels)))
  }
}
