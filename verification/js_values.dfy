/** JavaScript values as the board client handles them: optional values, ids
    and foreign keys, truthiness, loose equality, and the property-key text
    under which a collection indexes its models. */
module JsValues {

  /** A value that may be absent; `None` stands for `null` or `undefined`. */
  datatype Option<+T> = None | Some(value: T)

  /** An id or foreign-key attribute. The API sends numbers, while the router
      hands over URL text. `null` and `undefined` share one case because the
      client only tests them for truthiness and loose equality, where they
      behave alike. Numbers are unbounded integers here. */
  datatype Key = Nullish | Num(n: int) | Str(s: string)

  /** JavaScript truthiness of a key: `null`, `undefined`, `0` and `""` are falsy. */
  predicate Truthy(k: Key) {
    match k
    case Nullish => false
    case Num(n) => n != 0
    case Str(s) => s != ""
  }

  /** Truthiness of an optional text attribute such as a link. */
  predicate TruthyText(t: Option<string>) {
    t.Some? && t.value != ""
  }

  /** Loose equality `a == b`. Comparing a number with a string converts the
      string with ToNumber, which is the parameter `toNumber` (it yields `None`
      when the text does not denote an integer). */
  predicate LooseEquals(a: Key, b: Key, toNumber: string -> Option<int>) {
    match (a, b)
    case (Nullish, Nullish) => true
    case (Num(x), Num(y)) => x == y
    case (Str(x), Str(y)) => x == y
    case (Num(x), Str(y)) => toNumber(y) == Some(x)
    case (Str(x), Num(y)) => toNumber(x) == Some(y)
    case (_, _) => false
  }

  function DigitChar(d: int): char
    requires 0 <= d < 10
  {
    (48 + d) as char
  }

  /** Decimal text of a natural number, as `String(n)` writes it. */
  function NatText(n: nat): (r: string)
    ensures |r| >= 1
    ensures forall i :: 0 <= i < |r| ==> '0' <= r[i] <= '9'
    ensures n < 10 <==> |r| == 1
    decreases n
  {
    if n < 10 then [DigitChar(n)] else NatText(n / 10) + [DigitChar(n % 10)]
  }

  /** Decimal text of an integer, with a leading minus sign when negative. */
  function IntText(n: int): string {
    if n < 0 then "-" + NatText(-n) else NatText(n)
  }

  /** Distinct naturals have distinct decimal texts. */
  lemma {:induction false} NatTextInjective(a: nat, b: nat)
    requires NatText(a) == NatText(b)
    ensures a == b
    decreases a
  {
    if a >= 10 && b >= 10 {
      var ta, tb := NatText(a), NatText(b);
      assert ta[..|ta| - 1] == NatText(a / 10);
      assert tb[..|tb| - 1] == NatText(b / 10);
      NatTextInjective(a / 10, b / 10);
      assert DigitChar(a % 10) == ta[|ta| - 1] == DigitChar(b % 10);
    }
  }

  /** The decimal text of an integer starts with a minus sign exactly when it is negative. */
  lemma IntTextSign(n: int)
    ensures |IntText(n)| >= 1
    ensures IntText(n)[0] == '-' <==> n < 0
  {
  }

  /** Distinct integers have distinct decimal texts. */
  lemma IntTextInjective(a: int, b: int)
    requires IntText(a) == IntText(b)
    ensures a == b
  {
    IntTextSign(a);
    IntTextSign(b);
    if a < 0 {
      assert NatText(-a) == IntText(a)[1..];
      assert NatText(-b) == IntText(b)[1..];
      NatTextInjective(-a, -b);
    } else {
      NatTextInjective(a, b);
    }
  }

  /** The text under which a non-null id indexes a model: a JavaScript object
      key is the id converted to a string. */
  function PropertyKey(k: Key): string
    requires k != Nullish
  {
    match k
    case Num(n) => IntText(n)
    case Str(s) => s
  }

  /** Whether a lookup by `a` finds a model whose id is `b`: both ids are set
      and their property keys coincide. A `null` id is never indexed. */
  predicate SameId(a: Key, b: Key) {
    a != Nullish && b != Nullish && PropertyKey(a) == PropertyKey(b)
  }

  /** Two numeric ids name the same model exactly when they are equal. */
  lemma SameNumericId(a: int, b: int)
    ensures SameId(Num(a), Num(b)) <==> a == b
  {
    if SameId(Num(a), Num(b)) {
      IntTextInjective(a, b);
    }
  }

  /** The text "42" taken from a URL finds the model whose numeric id is 42. */
  lemma RouteTextFindsNumericId()
    ensures SameId(Str("42"), Num(42))
  {
  }
}
