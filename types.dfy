/** The value types shared by the ingestion code and the views (types.ts). */
module Types {

  /** A value that may be missing: `null`, `NaN` or an absent cell on the JavaScript side. */
  datatype Option<+T> = None | Some(value: T)

  /** One client location, as the ingestion code produces it (types.ts:1-17).
      JavaScript numbers become `int` for the day count and `real` for the coordinates. */
  datatype Client = Client(
    id: string,
    division: string,
    store: string,
    code: string,
    name: string,
    city: string,
    phone: string,
    deliveryDays: string,
    numDeliveryDays: int,
    lat: real,
    lng: real,
    avgMonthlyPurchase: string,
    avgDeliveryPurchase: string,
    logo: string,
    freeGoodsJan26: string)
}
