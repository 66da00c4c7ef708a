/**
 * The bus-side data the bridge handles: body values, delivered signals and
 * match rules, with the meaning the "Match Rules" section of the D-Bus
 * Specification gives to the four rule keys the bridge uses.
 */
module Bus {
  import Strings

  /**
   * One element of a signal body. The body is a Go `[]interface{}`: `Nil` is
   * the nil interface (the zero value `make` fills a slice with), `String` a
   * Go `string`, `ObjectPath` a `dbus.ObjectPath` (a distinct Go type even
   * though it holds text), and `Int`/`Bool` stand for the other wire types.
   */
  datatype Value =
    | Nil
    | String(s: string)
    | ObjectPath(p: string)
    | Int(i: int)
    | Bool(b: bool)

  /** A delivered broadcast signal. */
  datatype Signal = Signal(path: string, iface: string, member: string, body: seq<Value>)

  /**
   * A match option: `PathPrefix` is `path_namespace`, `ExactPath` is `path`,
   * `Member` is `member` and `Interface` is `interface`.
   */
  datatype MatchRule =
    | PathPrefix(namespace: string)
    | ExactPath(path: string)
    | Member(member: string)
    | Interface(iface: string)
  {
    predicate IsPathRule() {
      PathPrefix? || ExactPath?
    }
  }

  /**
   * Whether one rule lets a signal through. A path namespace admits the
   * namespace itself and every path below it (the next character is `/`);
   * the root namespace `/` admits every path.
   */
  predicate Accepts(rule: MatchRule, sig: Signal) {
    match rule
    case PathPrefix(ns) =>
      Strings.HasPrefix(sig.path, ns) &&
      (|sig.path| == |ns| || ns == "/" || sig.path[|ns|] == '/')
    case ExactPath(p) => sig.path == p
    case Member(m) => sig.member == m
    case Interface(i) => sig.iface == i
  }

  /** A signal matches a rule sequence when every rule accepts it. */
  predicate Matches(rules: seq<MatchRule>, sig: Signal) {
    forall i :: 0 <= i < |rules| ==> Accepts(rules[i], sig)
  }
}
