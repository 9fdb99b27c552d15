/**
 * The denomination table `$monnaie_config` of app/config/monnaie.php, used by the legacy
 * scripts: the same fifteen values as app/Models/Currency.php under `billet_`/`piece_` keys.
 */
module Monnaie {
  import opened Assoc
  import opened Strs
  import Currency

  const Config: seq<Currency.Denomination> := [
    Currency.Denomination("billet_500", 50000, "Billet de 500€"),
    Currency.Denomination("billet_200", 20000, "Billet de 200€"),
    Currency.Denomination("billet_100", 10000, "Billet de 100€"),
    Currency.Denomination("billet_50", 5000, "Billet de 50€"),
    Currency.Denomination("billet_20", 2000, "Billet de 20€"),
    Currency.Denomination("billet_10", 1000, "Billet de 10€"),
    Currency.Denomination("billet_5", 500, "Billet de 5€"),
    Currency.Denomination("piece_2", 200, "Pièce de 2€"),
    Currency.Denomination("piece_1", 100, "Pièce de 1€"),
    Currency.Denomination("piece_050", 50, "Pièce de 0,50€"),
    Currency.Denomination("piece_020", 20, "Pièce de 0,20€"),
    Currency.Denomination("piece_010", 10, "Pièce de 0,10€"),
    Currency.Denomination("piece_005", 5, "Pièce de 0,05€"),
    Currency.Denomination("piece_002", 2, "Pièce de 0,02€"),
    Currency.Denomination("piece_001", 1, "Pièce de 0,01€")
  ]

  /** Fifteen entries whose cents strictly decrease from 50000 to 1. */
  lemma {:induction false} ConfigShape()
    ensures |Config| == 15
    ensures forall i, j :: 0 <= i < j < |Config| ==> Config[i].cents > Config[j].cents
    ensures Config[0].cents == 50000 && Config[|Config| - 1].cents == 1
  {
  }

  /** Seven `billet_` keys, then eight `piece_` keys. */
  lemma {:induction false} ConfigPrefixes()
    ensures forall i :: 0 <= i < 7 ==> StartsWith(Config[i].key, "billet_")
    ensures forall i :: 7 <= i < |Config| ==> StartsWith(Config[i].key, "piece_")
  {
  }

  /** Position by position, the cents and the labels are those of the new denomination table. */
  lemma {:induction false} SameValuesAsCurrency()
    ensures |Config| == |Currency.Table|
    ensures forall i :: 0 <= i < |Config| ==>
      Config[i].cents == Currency.Table[i].cents && Config[i].labelText == Currency.Table[i].labelText
  {
  }

  lemma {:induction false} KeysDistinct()
    ensures forall i, j :: 0 <= i < j < |Config| ==> Config[i].key != Config[j].key
  {
  }
}
